/**
 smtp.c: one session of the command loop, as what it makes of each turn.

 A turn is one command line with what the code reads or decides on the way: the line after an AUTH
 prompt, the bytes of DATA up to the dot line, and whether the handshake, the mailbox write or the
 delivery went well. Play() folds a run of turns; SmtpServer proves the loop over the buffers against it.
 */
module SmtpSession {
  import opened Views
  import opened Base64
  import BufferedIO
  import Relay

  const CRLF := "\r\n"

  datatype Config = Config(hostname: string, localDomain: string, user: Bytes, password: Bytes)

  datatype Phase = Connected | Greeted | MailFrom | RcptTo | InData | Quit

  datatype Session = Session(phase: Phase, tls: bool, authenticated: bool,
                             mailFrom: string, rcptTo: string, ehloHost: string)

  datatype Turn = Turn(line: string, extra: Option<string>, success: bool)

  /** What a turn does besides answering. */
  datatype Effect =
    | Nothing
    | TlsUp
    | LoggedIn
    | Stored(host: string, to: string, body: string, ok: bool)
    | Relayed(from: string, to: string, body: string, ok: bool)
    | NoDomain(to: string)

  datatype Reply =
    | Greets(more: bool, host: string)
    | Size | EightBit | OfferAuth | OfferTls
    | TlsActive | ReadyForTls
    | TlsFirst | BadMechanism | Prompt | AuthOk | AuthBad
    | Fine | Denied
    | GoAhead | Queued | StoreFailed | Delivered | DeliveryFailed
    | Bye | NotImplemented

  datatype Response = Response(session: Session, lines: seq<Reply>, effect: Effect, over: bool)

  const START := Session(Connected, false, false, "", "", "")

  /** The exact text of a reply line. */
  function Text(cfg: Config, reply: Reply): string {
    match reply
    case Greets(more, host) => (if more then "250-" else "250 ") + cfg.hostname + " greets " + host
    case Size => "250-SIZE 26214400"
    case EightBit => "250-8BITMIME"
    case OfferAuth => "250 AUTH PLAIN"
    case OfferTls => "250 STARTTLS"
    case TlsActive => "503 5.5.1 TLS already active"
    case ReadyForTls => "220 2.0.0 Ready to start TLS"
    case TlsFirst => "530 5.7.0 Must issue STARTTLS first"
    case BadMechanism => "504 5.5.4 Unrecognized authentication type"
    case Prompt => "334 "
    case AuthOk => "235 2.7.0 Authentication successful"
    case AuthBad => "535 5.7.8 Authentication credentials invalid"
    case Fine => "250 OK"
    case Denied => "554 5.7.1 Relay access denied"
    case GoAhead => "354 Start input, end with <CRLF>.<CRLF>"
    case Queued => "250 OK queued"
    case StoreFailed => "451 local delivery failed; try later"
    case Delivered => "250 OK delivered"
    case DeliveryFailed => "451 delivery failed; try later"
    case Bye => "221 Bye"
    case NotImplemented => "502 Command not implemented"
  }

  // ---- one turn ----

  datatype Verb = VEhlo | VHelo | VStartTls | VAuth | VMail | VRcpt | VData | VQuit | VOther

  predicate Is(cmd: string, word: string) {
    EqualIgnoreCase(cmd, word)
  }

  function VerbOf(cmd: string): Verb {
    if Is(cmd, "EHLO") then VEhlo
    else if Is(cmd, "HELO") then VHelo
    else if Is(cmd, "STARTTLS") then VStartTls
    else if Is(cmd, "AUTH") then VAuth
    else if Is(cmd, "MAIL") then VMail
    else if Is(cmd, "RCPT") then VRcpt
    else if Is(cmd, "DATA") then VData
    else if Is(cmd, "QUIT") then VQuit
    else VOther
  }

  /** Command and rest of a line. */
  function Parse(line: string): (Verb, string) {
    var (cmd, rest) := Split(Trim(line), ' ');
    (VerbOf(Trim(cmd)), Trim(rest))
  }

  function Domain(address: string): string {
    Split(address, '@').1
  }

  predicate IsLocal(cfg: Config, address: string) {
    EqualIgnoreCase(Domain(address), cfg.localDomain) || EqualIgnoreCase(Domain(address), "localhost")
  }

  /** The address between angle brackets. */
  function Bracketed(rest: string): string {
    Split(Split(rest, '<').1, '>').0
  }

  predicate Accepted(cfg: Config, b64: string) {
    var (authcid, passwd) := Credentials(Decode(b64));
    cfg.user != [] && cfg.password != [] && authcid == cfg.user && passwd == cfg.password
  }

  function Say(s: Session, line: Reply): Response {
    Response(s, [line], Nothing, false)
  }

  function Ehlo(s: Session, rest: string): Response {
    Response(s.(phase := Greeted, ehloHost := rest),
             [Greets(true, rest), Size, EightBit, if s.tls then OfferAuth else OfferTls], Nothing, false)
  }

  function StartTls(s: Session, success: bool): Response {
    if s.tls then Say(s, TlsActive)
    else if !success then Response(s, [ReadyForTls], Nothing, true)
    else Response(START.(tls := true), [ReadyForTls], TlsUp, false)
  }

  /** Whether the mechanism of an AUTH command is PLAIN, and its initial response. */
  function AuthArgs(rest: string): (bool, string) {
    var (mech, arg) := Split(rest, ' ');
    (Is(Trim(mech), "PLAIN"), Trim(arg))
  }

  function Auth(cfg: Config, s: Session, rest: string, extra: Option<string>): Response {
    if !s.tls then Say(s, TlsFirst)
    else
      var (plain, initial) := AuthArgs(rest);
      if !plain then Say(s, BadMechanism)
      else if initial != "" then LogIn(cfg, s, initial, [])
      else match extra
        case None => Response(s, [Prompt], Nothing, true)
        case Some(line) => LogIn(cfg, s, Trim(line), [Prompt])
  }

  function LogIn(cfg: Config, s: Session, b64: string, prompt: seq<Reply>): Response {
    if Accepted(cfg, b64) then Response(s.(authenticated := true), prompt + [AuthOk], LoggedIn, false)
    else Response(s, prompt + [AuthBad], Nothing, false)
  }

  function Mail(s: Session, rest: string): Response {
    Response(s.(phase := MailFrom, mailFrom := Bracketed(rest)), [Fine], Nothing, false)
  }

  function Rcpt(cfg: Config, s: Session, rest: string): Response {
    var address := Bracketed(rest);
    if !IsLocal(cfg, address) && !s.authenticated then Say(s, Denied)
    else Response(s.(phase := RcptTo, rcptTo := address), [Fine], Nothing, false)
  }

  function Data(cfg: Config, s: Session, extra: Option<string>, success: bool): Response {
    var s' := s.(phase := InData);
    if extra.None? || |extra.value| < |Relay.DOT_LINE| then Response(s', [GoAhead], Nothing, true)
    else
      var (effect, line) := Dispatch(cfg, s, extra.value[..|extra.value| - |Relay.DOT_LINE|], success);
      Response(s', [GoAhead, line], effect, false)
  }

  /** What becomes of a received body: a local mailbox, another server, or nowhere to go. */
  function Dispatch(cfg: Config, s: Session, body: string, success: bool): (Effect, Reply) {
    if IsLocal(cfg, s.rcptTo) then
      (Stored(if s.ehloHost != "" then s.ehloHost else "localhost", s.rcptTo, body, success),
       if success then Queued else StoreFailed)
    else if Domain(s.rcptTo) == "" then (NoDomain(s.rcptTo), DeliveryFailed)
    else (Relayed(s.mailFrom, s.rcptTo, body, success), if success then Delivered else DeliveryFailed)
  }

  function Respond(cfg: Config, s: Session, t: Turn): Response {
    var (verb, rest) := Parse(t.line);
    match verb
    case VEhlo => Ehlo(s, rest)
    case VHelo => Response(s.(phase := Greeted, ehloHost := rest), [Greets(false, rest)], Nothing, false)
    case VStartTls => StartTls(s, t.success)
    case VAuth => Auth(cfg, s, rest, t.extra)
    case VMail => Mail(s, rest)
    case VRcpt => Rcpt(cfg, s, rest)
    case VData => Data(cfg, s, t.extra, t.success)
    case VQuit => Response(s.(phase := Quit), [Bye], Nothing, true)
    case VOther => Say(s, NotImplemented)
  }

  /** What a turn reads after its command line: a record with this end, if any. */
  function Wants(s: Session, line: string): Option<string> {
    var (verb, rest) := Parse(line);
    if verb == VAuth && s.tls && AuthArgs(rest) == (true, "") then Some(CRLF)
    else if verb == VData then Some(Relay.DOT_LINE)
    else None
  }

  predicate Record(text: string, term: string) {
    BufferedIO.RecordEnd(text, term) == Some(|text|)
  }

  /** The turn is made of whole records: the shortest ones ending in the terminators the code asks for. */
  predicate Heard(s: Session, t: Turn) {
    && Record(t.line, CRLF)
    && match (Wants(s, t.line), t.extra)
       case (None, extra) => extra == None
       case (Some(term), None) => true
       case (Some(term), Some(text)) => Record(text, term)
  }

  // ---- a run ----

  /** `heard` and `said` speak of the current connection, plain or TLS. */
  datatype Run = Run(session: Session, heard: string, said: string, effects: seq<Effect>, over: bool)

  function Wire(cfg: Config, lines: seq<Reply>): string {
    if lines == [] then "" else Wire(cfg, lines[..|lines| - 1]) + Text(cfg, lines[|lines| - 1]) + CRLF
  }

  function Greeting(cfg: Config): string {
    "220 " + cfg.hostname + " ESMTP ready" + CRLF
  }

  function Begin(cfg: Config): Run {
    Run(START, "", Greeting(cfg), [], false)
  }

  function Advance(cfg: Config, r: Run, t: Turn): Run {
    if r.over then r
    else
      var a := Respond(cfg, r.session, t);
      var effects := r.effects + [a.effect];
      if a.effect == TlsUp then Run(a.session, "", "", effects, a.over)
      else
        var extra := if t.extra.Some? then t.extra.value else "";
        Run(a.session, r.heard + t.line + extra, r.said + Wire(cfg, a.lines), effects, a.over)
  }

  function PlayFrom(cfg: Config, r: Run, turns: seq<Turn>): Run {
    if turns == [] then r
    else Advance(cfg, PlayFrom(cfg, r, turns[..|turns| - 1]), turns[|turns| - 1])
  }

  function Play(cfg: Config, turns: seq<Turn>): Run {
    PlayFrom(cfg, Begin(cfg), turns)
  }

  lemma PlaySnoc(cfg: Config, r: Run, turns: seq<Turn>, t: Turn)
    ensures PlayFrom(cfg, r, turns + [t]) == Advance(cfg, PlayFrom(cfg, r, turns), t)
  {
    assert (turns + [t])[..|turns|] == turns;
  }

  // ---- safety of every run ----

  predicate Safe(cfg: Config, s: Session) {
    && (s.authenticated ==> s.tls)
    && (s.rcptTo == "" || IsLocal(cfg, s.rcptTo) || s.authenticated)
  }

  /** Some login stands before position n, and the start of TLS before it. */
  ghost predicate Proven(effects: seq<Effect>, n: nat)
    requires n <= |effects|
  {
    exists i, j :: 0 <= i < j < n && effects[i] == TlsUp && effects[j] == LoggedIn
  }

  /** Effect n was allowed by the ones before it. */
  ghost predicate Permitted(cfg: Config, effects: seq<Effect>, n: nat)
    requires n < |effects|
  {
    match effects[n]
    case Relayed(_, to, _, _) => Proven(effects, n) && Domain(to) != "" && !IsLocal(cfg, to)
    case Stored(_, to, _, _) => IsLocal(cfg, to)
    case LoggedIn => TlsUp in effects[..n]
    case TlsUp => TlsUp !in effects[..n]
    case _ => true
  }

  ghost predicate Justified(cfg: Config, r: Run) {
    && Safe(cfg, r.session)
    && (r.session.tls <==> TlsUp in r.effects)
    && (r.session.authenticated ==> Proven(r.effects, |r.effects|))
    && (forall n :: 0 <= n < |r.effects| ==> Permitted(cfg, r.effects, n))
  }

  /** What a turn may do to the session, and when it may act. */
  predicate Sound(cfg: Config, s: Session, a: Response) {
    && Safe(cfg, a.session)
    && (a.effect == TlsUp ==> !s.tls && a.session == START.(tls := true) && !a.over)
    && (a.effect != TlsUp ==>
          a.session.tls == s.tls && a.session.authenticated == (s.authenticated || a.effect == LoggedIn))
    && (a.effect == LoggedIn ==> s.tls)
    && (a.effect.Relayed? ==> s.authenticated && Domain(a.effect.to) != "" && !IsLocal(cfg, a.effect.to))
    && (a.effect.Stored? ==> IsLocal(cfg, a.effect.to))
  }

  lemma RespondIsSound(cfg: Config, s: Session, t: Turn)
    requires Safe(cfg, s)
    ensures Sound(cfg, s, Respond(cfg, s, t))
  {
    hide Sound, Safe, Parse, Auth, Data, Rcpt;
    var (verb, rest) := Parse(t.line);
    match verb
    case VAuth => AuthIsSound(cfg, s, rest, t.extra);
    case VRcpt => RcptIsSound(cfg, s, rest);
    case VData => DataIsSound(cfg, s, t.extra, t.success);
    case VStartTls => StartTlsIsSound(cfg, s, t.success);
    case _ => QuietIsSound(cfg, s, Respond(cfg, s, t));
  }

  lemma StartTlsIsSound(cfg: Config, s: Session, success: bool)
    requires Safe(cfg, s)
    ensures Sound(cfg, s, StartTls(s, success))
  {
    hide IsLocal, Domain;
  }

  lemma QuietIsSound(cfg: Config, s: Session, a: Response)
    requires Safe(cfg, s) && a.effect == Nothing
    requires a.session.tls == s.tls && a.session.authenticated == s.authenticated && a.session.rcptTo == s.rcptTo
    ensures Sound(cfg, s, a)
  {
    hide IsLocal, Domain;
  }

  lemma AuthIsSound(cfg: Config, s: Session, rest: string, extra: Option<string>)
    requires Safe(cfg, s)
    ensures Sound(cfg, s, Auth(cfg, s, rest, extra))
  {
    hide Is, IsLocal, Domain, Accepted, AuthArgs;
  }

  lemma RcptIsSound(cfg: Config, s: Session, rest: string)
    requires Safe(cfg, s)
    ensures Sound(cfg, s, Rcpt(cfg, s, rest))
  {
    hide IsLocal, Domain, Bracketed;
  }

  lemma DataIsSound(cfg: Config, s: Session, extra: Option<string>, success: bool)
    requires Safe(cfg, s)
    ensures Sound(cfg, s, Data(cfg, s, extra, success))
  {
    assert Domain("") == "";
    hide IsLocal, Domain;
  }

  /**
   In every run: a relay to another host happens only after a login, which happened only after TLS was up;
   a local store is only for local recipients; TLS starts at most once.
   */
  lemma {:induction false} EveryRunIsJustified(cfg: Config, turns: seq<Turn>)
    ensures Justified(cfg, Play(cfg, turns))
  {
    if turns != [] {
      var n := |turns| - 1;
      EveryRunIsJustified(cfg, turns[..n]);
      var r := Play(cfg, turns[..n]);
      if !r.over {
        RespondIsSound(cfg, r.session, turns[n]);
        JustifiedStep(cfg, r, turns[n]);
      }
    }
  }

  lemma JustifiedStep(cfg: Config, r: Run, t: Turn)
    requires Justified(cfg, r) && !r.over
    ensures Justified(cfg, Advance(cfg, r, t))
  {
    RespondIsSound(cfg, r.session, t);
    hide Respond, Safe, IsLocal, Domain, Wire, Proven, Permitted;
    var a := Respond(cfg, r.session, t);
    ProvenStays(r.effects, a.effect);
    LastPermitted(cfg, r, a);
    forall n | 0 <= n < |r.effects| ensures Permitted(cfg, r.effects + [a.effect], n) {
      PermittedStays(cfg, r.effects, a.effect, n);
    }
  }

  lemma LastPermitted(cfg: Config, r: Run, a: Response)
    requires Justified(cfg, r) && Sound(cfg, r.session, a)
    ensures Permitted(cfg, r.effects + [a.effect], |r.effects|)
  {
    hide IsLocal, Domain;
    assert (r.effects + [a.effect])[..|r.effects|] == r.effects;
    ProvenStays(r.effects, a.effect);
  }

  lemma PermittedStays(cfg: Config, effects: seq<Effect>, e: Effect, n: nat)
    requires n < |effects| && Permitted(cfg, effects, n)
    ensures Permitted(cfg, effects + [e], n)
  {
    hide IsLocal, Domain;
    assert (effects + [e])[..n] == effects[..n];
    ProvenStays(effects, e);
  }

  lemma ProvenStays(effects: seq<Effect>, e: Effect)
    ensures forall n: nat :: n <= |effects| ==> (Proven(effects + [e], n) <==> Proven(effects, n))
    ensures Proven(effects, |effects|) ==> Proven(effects + [e], |effects| + 1)
    ensures TlsUp in effects && e == LoggedIn ==> Proven(effects + [e], |effects| + 1)
  {
    var longer := effects + [e];
    forall n: nat | n <= |effects| ensures Proven(longer, n) <==> Proven(effects, n) {
      if Proven(effects, n) {
        var i, j :| 0 <= i < j < n && effects[i] == TlsUp && effects[j] == LoggedIn;
        assert longer[i] == TlsUp && longer[j] == LoggedIn;
      }
    }
    if TlsUp in effects && e == LoggedIn {
      var i :| 0 <= i < |effects| && effects[i] == TlsUp;
      assert longer[i] == TlsUp && longer[|effects|] == LoggedIn;
    }
  }

  // ---- nothing from before TLS counts after it ----

  /** The session a TLS client starts with. */
  const SECURED := Run(START.(tls := true), "", "", [], false)

  function WithPast(past: seq<Effect>, r: Run): Run {
    r.(effects := past + r.effects)
  }

  lemma {:induction false} PastIsInert(cfg: Config, past: seq<Effect>, r: Run, turns: seq<Turn>)
    requires r.session.tls
    ensures PlayFrom(cfg, WithPast(past, r), turns) == WithPast(past, PlayFrom(cfg, r, turns))
    ensures PlayFrom(cfg, r, turns).session.tls
  {
    if turns != [] {
      var n := |turns| - 1;
      PastIsInert(cfg, past, r, turns[..n]);
      AdvanceWithPast(cfg, past, PlayFrom(cfg, r, turns[..n]), turns[n]);
    }
  }

  lemma AdvanceWithPast(cfg: Config, past: seq<Effect>, r: Run, t: Turn)
    requires r.session.tls
    ensures Advance(cfg, WithPast(past, r), t) == WithPast(past, Advance(cfg, r, t))
    ensures Advance(cfg, r, t).session.tls
  {
    TlsStays(cfg, r.session, t);
    hide Respond, Wire;
    var a := Respond(cfg, r.session, t);
    assert (past + r.effects) + [a.effect] == past + (r.effects + [a.effect]);
  }

  lemma TlsStays(cfg: Config, s: Session, t: Turn)
    requires s.tls
    ensures Respond(cfg, s, t).session.tls && Respond(cfg, s, t).effect != TlsUp
  {
    hide Parse, IsLocal, Domain, Accepted, AuthArgs, Bracketed;
  }

  lemma {:induction false} PlayAppends(cfg: Config, r: Run, a: seq<Turn>, b: seq<Turn>)
    ensures PlayFrom(cfg, r, a + b) == PlayFrom(cfg, PlayFrom(cfg, r, a), b)
  {
    if b == [] {
      assert a + b == a;
    } else {
      var n := |b| - 1;
      assert (a + b)[..|a + b| - 1] == a + b[..n];
      PlayAppends(cfg, r, a, b[..n]);
    }
  }

  /** Whatever was said in the clear, the run after STARTTLS is the run of a client that starts on TLS. */
  lemma PlaintextIsForgotten(cfg: Config, before: seq<Turn>, t: Turn, after: seq<Turn>)
    requires !Play(cfg, before).over && Respond(cfg, Play(cfg, before).session, t).effect == TlsUp
    ensures Play(cfg, before + [t] + after) ==
            WithPast(Play(cfg, before).effects + [TlsUp], PlayFrom(cfg, SECURED, after))
  {
    var r := Play(cfg, before);
    PlaySnoc(cfg, Begin(cfg), before, t);
    PlayAppends(cfg, Begin(cfg), before + [t], after);
    TlsUpResets(cfg, r.session, t);
    var past := r.effects + [TlsUp];
    assert past + [] == past;
    assert Advance(cfg, r, t) == WithPast(past, SECURED);
    PastIsInert(cfg, past, SECURED, after);
  }

  lemma TlsUpResets(cfg: Config, s: Session, t: Turn)
    ensures var a := Respond(cfg, s, t);
            if a.effect == TlsUp then a.session == START.(tls := true) && !a.over && !s.tls else a.session.tls == s.tls
  {
    hide Parse, IsLocal, Domain, Accepted, AuthArgs, Bracketed;
  }

  // ---- logging in ----

  /** A response a client encoded is accepted exactly for the configured name and password, neither empty. */
  lemma LoginExactly(cfg: Config, authzid: Bytes, authcid: Bytes, passwd: Bytes, text: string)
    requires 0 !in authzid && 0 !in authcid
    requires WithoutBlanks(text) == Encode(authzid + [0] + (authcid + [0] + passwd))
    ensures Accepted(cfg, text) <==>
              cfg.user != [] && cfg.password != [] && authcid == cfg.user && passwd == cfg.password
  {
    AuthPlainRoundTrip(authzid, authcid, passwd, text);
  }

  // ---- what is relayed arrives ----

  /** Every turn was read as the code reads it. */
  ghost predicate AllHeard(cfg: Config, turns: seq<Turn>) {
    forall n :: 0 <= n < |turns| ==> !Play(cfg, turns[..n]).over && Heard(Play(cfg, turns[..n]).session, turns[n])
  }

  /** The bytes a session in state s takes its lines from. */
  function Stream(s: Session, plain: string, secure: string): string {
    if s.tls then secure else plain
  }

  /** The next line is not complete, or longer than what is sure to be accepted. */
  predicate NoLineWithin(p: string, sure: nat) {
    var e := BufferedIO.RecordEnd(p, CRLF);
    e.None? || e.value > sure
  }

  /** text is the front of p up to the first terminator. */
  predicate FrontOf(text: string, p: string, term: string) {
    text <= p && BufferedIO.RecordEnd(p, term) == Some(|text|)
  }

  /** There was nothing to read: no dot line in the whole rest, or no line within what is sure to be accepted. */
  predicate Missing(p: string, term: string, sure: nat) {
    if term == Relay.DOT_LINE then BufferedIO.RecordEnd(p, term).None? else NoLineWithin(p, sure)
  }

  /** The turn is what is read when p is pending: the first line, and the record it asks for right behind it. */
  predicate Received(s: Session, t: Turn, p: string, sure: nat) {
    && FrontOf(t.line, p, CRLF)
    && var q := p[|t.line|..];
       match (Wants(s, t.line), t.extra)
       case (None, extra) => extra == None
       case (Some(term), None) => Missing(q, term, sure)
       case (Some(term), Some(text)) => FrontOf(text, q, term)
  }

  /** Every turn was read off its connection, right behind what had been heard on it before. */
  ghost predicate AllReceived(cfg: Config, turns: seq<Turn>, plain: string, secure: string, sure: nat) {
    forall n :: 0 <= n < |turns| ==> ReceivedAt(cfg, turns, n, plain, secure, sure)
  }

  ghost predicate ReceivedAt(cfg: Config, turns: seq<Turn>, n: nat, plain: string, secure: string, sure: nat)
    requires n < |turns|
  {
    var r := Play(cfg, turns[..n]);
    var stream := Stream(r.session, plain, secure);
    !r.over && r.heard <= stream && Received(r.session, turns[n], stream[|r.heard|..], sure)
  }

  /** What stands in front of a stream is a record of its own. */
  lemma FrontIsRecord(text: string, p: string, term: string)
    requires FrontOf(text, p, term)
    ensures Record(text, term) && p == text + p[|text|..]
  {
    var e := |text|;
    BufferedIO.RecordEndSpec(p, term);
    assert BufferedIO.EndsAt(text, term, e);
    forall k: nat | k < e ensures !BufferedIO.EndsAt(text, term, k) {
      assert !BufferedIO.EndsAt(p, term, k);
    }
    BufferedIO.RecordEndIs(text, term, e);
  }

  /** A record stays in front whatever follows it. */
  lemma RecordIsFront(text: string, rest: string, term: string)
    requires Record(text, term)
    ensures FrontOf(text, text + rest, term) && (text + rest)[|text|..] == rest
  {
    FindPrefix(text, rest, term);
  }

  lemma ReceivedIsHeard(s: Session, t: Turn, p: string, sure: nat)
    requires Received(s, t, p, sure)
    ensures Heard(s, t)
  {
    hide Wants, FrontOf, Record, Missing;
    FrontIsRecord(t.line, p, CRLF);
    if Wants(s, t.line).Some? && t.extra.Some? {
      FrontIsRecord(t.extra.value, p[|t.line|..], Wants(s, t.line).value);
    }
  }

  lemma AllReceivedIsHeard(cfg: Config, turns: seq<Turn>, plain: string, secure: string, sure: nat)
    requires AllReceived(cfg, turns, plain, secure, sure)
    ensures AllHeard(cfg, turns)
  {
    hide Received, Heard, PlayFrom;
    forall n | 0 <= n < |turns| ensures !Play(cfg, turns[..n]).over && Heard(Play(cfg, turns[..n]).session, turns[n]) {
      assert ReceivedAt(cfg, turns, n, plain, secure, sure);
      var r := Play(cfg, turns[..n]);
      ReceivedIsHeard(r.session, turns[n], Stream(r.session, plain, secure)[|r.heard|..], sure);
    }
  }

  /** What was heard is always the front of the connection the session is on, also when a turn ended it. */
  lemma HeardIsFront(cfg: Config, turns: seq<Turn>, plain: string, secure: string, sure: nat)
    requires AllReceived(cfg, turns, plain, secure, sure)
    ensures var r := Play(cfg, turns); r.heard <= Stream(r.session, plain, secure)
  {
    if turns != [] {
      var n := |turns| - 1;
      assert ReceivedAt(cfg, turns, n, plain, secure, sure);
      AdvancesAlong(cfg, Play(cfg, turns[..n]), turns[n], plain, secure, sure);
    }
  }

  lemma AdvancesAlong(cfg: Config, r: Run, t: Turn, plain: string, secure: string, sure: nat)
    requires !r.over
    requires var stream := Stream(r.session, plain, secure);
             r.heard <= stream && Received(r.session, t, stream[|r.heard|..], sure)
    ensures var r' := Advance(cfg, r, t); r'.heard <= Stream(r'.session, plain, secure)
  {
    TlsUpResets(cfg, r.session, t);
    hide Respond, Wants, Wire, Missing;
    var stream := Stream(r.session, plain, secure);
    var p := stream[|r.heard|..];
    var q := p[|t.line|..];
    assert r.heard + t.line <= stream;
    assert q == stream[|r.heard + t.line|..];
    if t.extra.Some? {
      assert t.extra.value <= q;
      assert r.heard + t.line + t.extra.value <= stream;
    } else {
      assert r.heard + t.line + "" == r.heard + t.line;
    }
  }

  lemma {:induction false} EffectOfTurn(cfg: Config, turns: seq<Turn>, n: nat)
    requires AllHeard(cfg, turns) && n < |turns|
    ensures |Play(cfg, turns).effects| == |turns|
    ensures Play(cfg, turns).effects[n] == Respond(cfg, Play(cfg, turns[..n]).session, turns[n]).effect
  {
    hide Respond, Heard, Wire;
    hide PlayFrom;
    var m := |turns| - 1;
    var prefix := turns[..m];
    assert forall k :: 0 <= k <= m ==> prefix[..k] == turns[..k];
    assert AllHeard(cfg, prefix);
    if m > 0 {
      EffectOfTurn(cfg, prefix, if n < m then n else 0);
    }
    PlaySnoc(cfg, Begin(cfg), prefix, turns[m]);
    assert prefix + [turns[m]] == turns;
    assert !Play(cfg, prefix).over;
    NoEffects(cfg, prefix);
  }

  lemma NoEffects(cfg: Config, turns: seq<Turn>)
    ensures turns == [] ==> Play(cfg, turns).effects == []
  {
  }

  /** A body the session hands on is one the client sent: cut at the first dot line of what came after DATA. */
  lemma BodyWasSent(cfg: Config, s: Session, t: Turn)
    requires Heard(s, t)
    ensures var e := Respond(cfg, s, t).effect;
            e.Stored? || e.Relayed? ==> t.extra.Some? && Relay.CutBody(t.extra.value) == Some((e.body, ""))
  {
    var e := Respond(cfg, s, t).effect;
    if e.Stored? || e.Relayed? {
      OnlyDataDelivers(cfg, s, t);
      var text := t.extra.value;
      assert text[|text|..] == "";
    }
  }

  lemma OnlyDataDelivers(cfg: Config, s: Session, t: Turn)
    requires Respond(cfg, s, t).effect.Stored? || Respond(cfg, s, t).effect.Relayed?
    ensures Wants(s, t.line) == Some(Relay.DOT_LINE) && t.extra.Some? && |t.extra.value| >= 5
    ensures Respond(cfg, s, t).effect.body == t.extra.value[..|t.extra.value| - 5]
  {
    hide Parse, IsLocal, Domain, Accepted, AuthArgs, Bracketed;
  }

  /** In every run the next server gets each relayed body, or that body without one final CRLF. */
  lemma RelayedBodiesArrive(cfg: Config, turns: seq<Turn>, n: nat, next: string)
    requires AllHeard(cfg, turns) && n < |turns|
    ensures |Play(cfg, turns).effects| == |turns|
    ensures var e := Play(cfg, turns).effects[n];
            e.Relayed? ==> Relay.CutBody(Relay.Framed(e.body) + next) == Some((Relay.Arrived(e.body), next))
  {
    hide Respond, Heard;
    EffectOfTurn(cfg, turns, n);
    var s := Play(cfg, turns[..n]).session;
    BodyWasSent(cfg, s, turns[n]);
    var e := Respond(cfg, s, turns[n]).effect;
    if e.Relayed? {
      Relay.RelayFidelity(turns[n].extra.value, next);
    }
  }
}
