/**
 smtp.c: what a session made of each turn, read off the lines of the client.

 The session keeps a sender, a recipient, a host and two switches in variables. The laws here speak of none
 of them: who gets a body, from whom, and whether it may, is found by going back over the turns.
 */
module Envelopes {
  import opened Views
  import opened SmtpSession
  import Relay

  // ---- what a line says ----

  function CommandOf(t: Turn): Verb {
    Parse(t.line).0
  }

  function ArgumentOf(t: Turn): string {
    Parse(t.line).1
  }

  predicate NamesHost(t: Turn) {
    CommandOf(t) == VEhlo || CommandOf(t) == VHelo
  }

  function AddressIn(t: Turn): string {
    Bracketed(ArgumentOf(t))
  }

  /** The base64 text an AUTH turn answers with: on the command line, or after the prompt. */
  function AnswerIn(t: Turn): Option<string> {
    if AuthArgs(ArgumentOf(t)).1 != "" then Some(AuthArgs(ArgumentOf(t)).1)
    else match t.extra
      case None => None
      case Some(line) => Some(Trim(line))
  }

  function WordOf(v: Verb): string
    requires v != VOther
  {
    match v
    case VEhlo => "EHLO"
    case VHelo => "HELO"
    case VStartTls => "STARTTLS"
    case VAuth => "AUTH"
    case VMail => "MAIL"
    case VRcpt => "RCPT"
    case VData => "DATA"
    case VQuit => "QUIT"
  }

  /** A command is known by its word, in any case of letters. */
  lemma VerbIsWord(cmd: string, v: Verb)
    requires v != VOther
    ensures VerbOf(cmd) == v <==> EqualIgnoreCase(cmd, WordOf(v))
  {
    if VerbOf(cmd) != VOther && VerbOf(cmd) != v {
      WordsDiffer(VerbOf(cmd), v);
    }
  }

  lemma WordsDiffer(u: Verb, v: Verb)
    requires u != VOther && v != VOther && u != v
    ensures |WordOf(u)| != |WordOf(v)| || LowerChar(WordOf(u)[0]) != LowerChar(WordOf(v)[0])
  {
  }

  lemma CaseKeepsBlanks(a: string, b: string)
    requires EqualIgnoreCase(a, b) && NoSpace(b)
    ensures NoSpace(a)
  {
    forall c | c in a ensures !IsSpace(c) {
      var i :| 0 <= i < |a| && a[i] == c;
      assert b[i] in b && LowerChar(a[i]) == LowerChar(b[i]);
    }
  }

  /** A command line as it is written is read as that command with that argument, wherever there are blanks. */
  lemma LineAsWritten(before: string, word: string, v: Verb, gap: string, arg: string, after: string)
    requires v != VOther && EqualIgnoreCase(word, WordOf(v)) && Trimmed(arg)
    requires Blanks(before) && Blanks(gap) && Blanks(after)
    ensures Parse(before + (word + (" " + (gap + arg))) + after) == (v, arg)
    ensures Parse(before + word + after) == (v, "")
  {
    hide VerbOf;
    VerbIsWord(word, v);
    assert NoSpace(WordOf(v));
    CaseKeepsBlanks(word, WordOf(v));
    LineTrims(before, word, gap, arg, after);
    TrimAround(before, word, after);
    WordThenRest(word, gap, arg);
    hide Trim, Split;
    assert Trim("") == "" by { TrimNoSpace(""); }
  }

  lemma LineTrims(before: string, word: string, gap: string, arg: string, after: string)
    requires word != "" && NoSpace(word) && Trimmed(arg) && Blanks(before) && Blanks(gap) && Blanks(after)
    ensures Trim(before + (word + (" " + (gap + arg))) + after) ==
            if arg == "" then word else word + (" " + (gap + arg))
    ensures Trimmed(word)
  {
    assert word[0] in word && word[|word| - 1] in word;
    if arg == "" {
      assert before + (word + (" " + (gap + arg))) + after == before + word + (" " + gap + after);
      TrimAround(before, word, " " + gap + after);
    } else {
      var text := word + (" " + (gap + arg));
      assert text[0] == word[0] && text[|text| - 1] == arg[|arg| - 1];
      TrimAround(before, text, after);
    }
  }

  /** The address of MAIL and RCPT is what stands between the first brackets. */
  lemma AddressAsWritten(before: string, address: string, after: string)
    requires '<' !in before && '>' !in address
    ensures Bracketed(before + "<" + address + ">" + after) == address
  {
    assert before + "<" + address + ">" + after == before + ['<'] + (address + ['>'] + after);
    SplitAt(before, '<', address + ['>'] + after);
    SplitAt(address, '>', after);
  }

  /** The domain is what follows the first @, and there is none without one. */
  lemma DomainAsWritten(cfg: Config, user: string, domain: string)
    requires '@' !in user
    ensures Domain(user + "@" + domain) == domain && Domain(user) == ""
    ensures IsLocal(cfg, user + "@" + domain) <==>
              EqualIgnoreCase(domain, cfg.localDomain) || EqualIgnoreCase(domain, "localhost")
  {
    SplitAt(user, '@', domain);
    assert Split(user, '@') == (user, "");
  }

  /** RCPT TO:<user@domain>, in any case of letters and with any parameters behind it. */
  lemma RecipientAsWritten(cfg: Config, word: string, user: string, domain: string, more: string,
                           extra: Option<string>, ok: bool)
    requires EqualIgnoreCase(word, "RCPT") && '@' !in user && '>' !in user && '>' !in domain && Trimmed(">" + more)
    ensures var t := Turn(word + " " + "TO:<" + user + "@" + domain + ">" + more + CRLF, extra, ok);
            && CommandOf(t) == VRcpt && AddressIn(t) == user + "@" + domain && Domain(AddressIn(t)) == domain
            && (IsLocal(cfg, AddressIn(t)) <==>
                  EqualIgnoreCase(domain, cfg.localDomain) || EqualIgnoreCase(domain, "localhost"))
  {
    hide Parse, Bracketed, Domain, IsLocal;
    var address := user + "@" + domain;
    var arg := "TO:" + "<" + address + ">" + more;
    assert (">" + more)[|more|] == arg[|arg| - 1];
    LineAsWritten("", word, VRcpt, "", arg, CRLF);
    AddressAsWritten("TO:", address, more);
    DomainAsWritten(cfg, user, domain);
    assert word + " " + "TO:<" + user + "@" + domain + ">" + more + CRLF ==
           "" + (word + (" " + ("" + arg))) + CRLF;
  }

  /** AUTH with a mechanism and an initial response. */
  lemma AuthAsWritten(mechanism: string, gap: string, text: string)
    requires NoSpace(mechanism) && Blanks(gap) && Trimmed(text)
    ensures AuthArgs(mechanism + (" " + (gap + text))) == (EqualIgnoreCase(mechanism, "PLAIN"), text)
    ensures AuthArgs(mechanism) == (EqualIgnoreCase(mechanism, "PLAIN"), "")
  {
    WordThenRest(mechanism, gap, text);
  }

  // ---- going back over the turns ----

  /** The recipient may be named: it is local, or someone has logged in. */
  predicate MayReceive(cfg: Config, address: string, before: seq<Effect>) {
    IsLocal(cfg, address) || LoggedIn in before
  }

  /** The address of the last RCPT that could be accepted, unless TLS came up since. */
  function LastRecipient(cfg: Config, turns: seq<Turn>, effects: seq<Effect>): string
    requires |effects| == |turns|
  {
    if turns == [] then ""
    else
      var n := |turns| - 1;
      if effects[n] == TlsUp then ""
      else if CommandOf(turns[n]) == VRcpt && MayReceive(cfg, AddressIn(turns[n]), effects[..n])
      then AddressIn(turns[n])
      else LastRecipient(cfg, turns[..n], effects[..n])
  }

  /** The address of the last MAIL, unless TLS came up since. */
  function LastSender(turns: seq<Turn>, effects: seq<Effect>): string
    requires |effects| == |turns|
  {
    if turns == [] then ""
    else
      var n := |turns| - 1;
      if effects[n] == TlsUp then ""
      else if CommandOf(turns[n]) == VMail then AddressIn(turns[n])
      else LastSender(turns[..n], effects[..n])
  }

  /** The host of the last EHLO or HELO, unless TLS came up since. */
  function LastHost(turns: seq<Turn>, effects: seq<Effect>): string
    requires |effects| == |turns|
  {
    if turns == [] then ""
    else
      var n := |turns| - 1;
      if effects[n] == TlsUp then ""
      else if NamesHost(turns[n]) then ArgumentOf(turns[n])
      else LastHost(turns[..n], effects[..n])
  }

  /** The turn is a DATA whose body came. */
  predicate Carries(t: Turn) {
    CommandOf(t) == VData && t.extra.Some? && |t.extra.value| >= |Relay.DOT_LINE|
  }

  /** The turn is an AUTH PLAIN whose answer holds the configured name and password. */
  predicate Proves(cfg: Config, t: Turn) {
    && CommandOf(t) == VAuth && AuthArgs(ArgumentOf(t)).0
    && AnswerIn(t).Some? && Accepted(cfg, AnswerIn(t).value)
  }

  /** Which effect the next turn has. */
  predicate HasEffect(cfg: Config, turns: seq<Turn>, effects: seq<Effect>, t: Turn, e: Effect)
    requires |effects| == |turns|
  {
    var to := LastRecipient(cfg, turns, effects);
    && (e == TlsUp <==> CommandOf(t) == VStartTls && t.success && TlsUp !in effects)
    && (e == LoggedIn <==> Proves(cfg, t) && TlsUp in effects)
    && (e.Stored? <==> Carries(t) && IsLocal(cfg, to))
    && (e.NoDomain? <==> Carries(t) && !IsLocal(cfg, to) && Domain(to) == "")
    && (e.Relayed? <==> Carries(t) && !IsLocal(cfg, to) && Domain(to) != "")
  }

  /** Who the body goes to, from whom and under which host, and what the client is told. */
  predicate GoesTo(cfg: Config, turns: seq<Turn>, effects: seq<Effect>, t: Turn, e: Effect, answers: seq<Reply>)
    requires |effects| == |turns|
  {
    match e
    case Stored(host, to, _, ok) =>
      && to == LastRecipient(cfg, turns, effects) && ok == t.success
      && host == (if LastHost(turns, effects) == "" then "localhost" else LastHost(turns, effects))
      && answers == [GoAhead, if t.success then Queued else StoreFailed]
    case Relayed(from, to, _, ok) =>
      && to == LastRecipient(cfg, turns, effects) && ok == t.success
      && from == LastSender(turns, effects)
      && answers == [GoAhead, if t.success then Delivered else DeliveryFailed]
    case NoDomain(to) =>
      to == LastRecipient(cfg, turns, effects) && answers == [GoAhead, DeliveryFailed]
    case _ => true
  }

  /** What a client is told, after these effects, when the turn is not a DATA. */
  predicate Told(cfg: Config, effects: seq<Effect>, t: Turn, answers: seq<Reply>) {
    match CommandOf(t)
    case VEhlo =>
      answers == [Greets(true, ArgumentOf(t)), Size, EightBit, if TlsUp in effects then OfferAuth else OfferTls]
    case VHelo => answers == [Greets(false, ArgumentOf(t))]
    case VStartTls => answers == [if TlsUp in effects then TlsActive else ReadyForTls]
    case VAuth =>
      if TlsUp !in effects then answers == [TlsFirst]
      else if !AuthArgs(ArgumentOf(t)).0 then answers == [BadMechanism]
      else answers == (if AuthArgs(ArgumentOf(t)).1 == "" then [Prompt] else []) +
                      (if AnswerIn(t).None? then [] else if Proves(cfg, t) then [AuthOk] else [AuthBad])
    case VMail => answers == [Fine]
    case VRcpt => answers == [if MayReceive(cfg, AddressIn(t), effects) then Fine else Denied]
    case VData => true
    case VQuit => answers == [Bye]
    case VOther => answers == [NotImplemented]
  }

  /** The answers to turn n. */
  function Answers(cfg: Config, turns: seq<Turn>, n: nat): seq<Reply>
    requires n < |turns|
  {
    Respond(cfg, Play(cfg, turns[..n]).session, turns[n]).lines
  }

  // ---- the session remembers no more and no less ----

  predicate Recalls(cfg: Config, s: Session, turns: seq<Turn>, effects: seq<Effect>) {
    && |effects| == |turns|
    && s.rcptTo == LastRecipient(cfg, turns, effects)
    && s.mailFrom == LastSender(turns, effects)
    && s.ehloHost == LastHost(turns, effects)
    && (s.tls <==> TlsUp in effects) && (s.authenticated <==> LoggedIn in effects)
    && (s.authenticated ==> s.tls)
  }

  /** What one turn does to the recipient, the sender and the host. */
  predicate Renamed(cfg: Config, s: Session, t: Turn, s': Session, e: Effect) {
    && (s'.rcptTo == if e == TlsUp then ""
                     else if CommandOf(t) == VRcpt && (IsLocal(cfg, AddressIn(t)) || s.authenticated) then AddressIn(t)
                     else s.rcptTo)
    && (s'.mailFrom == if e == TlsUp then "" else if CommandOf(t) == VMail then AddressIn(t) else s.mailFrom)
    && (s'.ehloHost == if e == TlsUp then "" else if NamesHost(t) then ArgumentOf(t) else s.ehloHost)
  }

  /** What it does to the two switches. */
  predicate Switched(s: Session, s': Session, e: Effect) {
    && s'.tls == (s.tls || e == TlsUp)
    && s'.authenticated == (e != TlsUp && (s.authenticated || e == LoggedIn))
    && (e == TlsUp ==> !s.tls) && (e == LoggedIn ==> s.tls)
  }

  lemma TurnRenames(cfg: Config, s: Session, t: Turn)
    ensures var a := Respond(cfg, s, t); Renamed(cfg, s, t, a.session, a.effect)
  {
    hide Parse, IsLocal, Bracketed, Auth, SmtpSession.Data, Rcpt, StartTls, SmtpSession.Ehlo;
    RcptTurns(cfg, s, ArgumentOf(t));
    TlsTurns(s, ArgumentOf(t), t.success);
    AuthTurns(cfg, s, ArgumentOf(t), t.extra);
    DataTurns(cfg, s, t.extra, t.success);
  }

  lemma TurnSwitches(cfg: Config, s: Session, t: Turn)
    ensures var a := Respond(cfg, s, t); Switched(s, a.session, a.effect)
  {
    hide Parse, IsLocal, Bracketed, Auth, SmtpSession.Data, Rcpt, StartTls, SmtpSession.Ehlo;
    RcptTurns(cfg, s, ArgumentOf(t));
    TlsTurns(s, ArgumentOf(t), t.success);
    AuthTurns(cfg, s, ArgumentOf(t), t.extra);
    DataTurns(cfg, s, t.extra, t.success);
  }

  lemma RcptTurns(cfg: Config, s: Session, arg: string)
    ensures var a := Rcpt(cfg, s, arg);
            && a.effect == Nothing
            && a.session.rcptTo ==
               (if IsLocal(cfg, Bracketed(arg)) || s.authenticated then Bracketed(arg) else s.rcptTo)
            && a.session == s.(phase := a.session.phase, rcptTo := a.session.rcptTo)
  {
    hide IsLocal, Bracketed;
  }

  lemma TlsTurns(s: Session, arg: string, success: bool)
    ensures var a := StartTls(s, success);
            && a.effect == (if !s.tls && success then TlsUp else Nothing)
            && a.session == (if a.effect == TlsUp then START.(tls := true) else s)
    ensures SmtpSession.Ehlo(s, arg).effect == Nothing
    ensures SmtpSession.Ehlo(s, arg).session == s.(phase := Greeted, ehloHost := arg)
  {
  }

  lemma AuthTurns(cfg: Config, s: Session, arg: string, extra: Option<string>)
    ensures var a := Auth(cfg, s, arg, extra);
            && a.effect != TlsUp && (a.effect == LoggedIn ==> s.tls)
            && a.session == s.(authenticated := s.authenticated || a.effect == LoggedIn)
  {
    hide Accepted, AuthArgs;
  }

  lemma DataTurns(cfg: Config, s: Session, extra: Option<string>, success: bool)
    ensures var a := SmtpSession.Data(cfg, s, extra, success);
            a.effect != TlsUp && a.effect != LoggedIn && a.session == s.(phase := InData)
  {
    hide IsLocal, Domain;
  }

  lemma StepRecalls(cfg: Config, s: Session, turns: seq<Turn>, effects: seq<Effect>, t: Turn)
    requires Recalls(cfg, s, turns, effects)
    ensures var a := Respond(cfg, s, t); Recalls(cfg, a.session, turns + [t], effects + [a.effect])
  {
    TurnRenames(cfg, s, t);
    TurnSwitches(cfg, s, t);
    hide Respond, CommandOf, ArgumentOf, AddressIn, IsLocal;
    var a := Respond(cfg, s, t);
    assert (turns + [t])[..|turns|] == turns && (effects + [a.effect])[..|turns|] == effects;
  }

  lemma {:induction false} RunRecalls(cfg: Config, turns: seq<Turn>)
    requires AllHeard(cfg, turns)
    ensures Recalls(cfg, Play(cfg, turns).session, turns, Play(cfg, turns).effects)
  {
    hide Recalls, Respond, AllHeard, Play, Advance;
    if turns == [] {
      NothingYet(cfg);
    } else {
      var n := |turns| - 1;
      LastTurn(cfg, turns);
      RunRecalls(cfg, turns[..n]);
      StepRecalls(cfg, Play(cfg, turns[..n]).session, turns[..n], Play(cfg, turns[..n]).effects, turns[n]);
      assert turns == turns[..n] + [turns[n]];
    }
  }

  /** The last turn answers to the run before it. */
  lemma LastTurn(cfg: Config, turns: seq<Turn>)
    requires AllHeard(cfg, turns) && turns != []
    ensures var m := |turns| - 1;
            var a := Respond(cfg, Play(cfg, turns[..m]).session, turns[m]);
            && AllHeard(cfg, turns[..m])
            && Play(cfg, turns).session == a.session
            && Play(cfg, turns).effects == Play(cfg, turns[..m]).effects + [a.effect]
  {
    hide Respond, Heard, PlayFrom;
    var m := |turns| - 1;
    HeardBefore(cfg, turns, m);
    assert turns == turns[..m] + [turns[m]] && !Play(cfg, turns[..m]).over;
    PlaySnoc(cfg, Begin(cfg), turns[..m], turns[m]);
  }

  lemma NothingYet(cfg: Config)
    ensures Recalls(cfg, Play(cfg, []).session, [], Play(cfg, []).effects)
  {
  }

  lemma HeardBefore(cfg: Config, turns: seq<Turn>, n: nat)
    requires AllHeard(cfg, turns) && n <= |turns|
    ensures AllHeard(cfg, turns[..n])
  {
    hide Play, Heard;
    assert forall k :: 0 <= k <= n ==> turns[..n][..k] == turns[..k];
  }

  /** The effects of the first turns are the first effects. */
  lemma {:induction false} EffectsBefore(cfg: Config, turns: seq<Turn>, n: nat)
    requires AllHeard(cfg, turns) && n <= |turns|
    ensures |Play(cfg, turns).effects| == |turns| && Play(cfg, turns[..n]).effects == Play(cfg, turns).effects[..n]
    decreases |turns|
  {
    hide Play, AllHeard, Advance, Respond;
    OneEach(cfg, turns);
    if n == |turns| {
      assert turns[..n] == turns;
    } else {
      var m := |turns| - 1;
      LastTurn(cfg, turns);
      OneEach(cfg, turns[..m]);
      EffectsBefore(cfg, turns[..m], n);
      assert turns[..m][..n] == turns[..n];
    }
  }

  lemma OneEach(cfg: Config, turns: seq<Turn>)
    requires AllHeard(cfg, turns)
    ensures |Play(cfg, turns).effects| == |turns|
  {
    hide Play, AllHeard, LastRecipient, LastSender, LastHost;
    RunRecalls(cfg, turns);
  }

  // ---- the laws ----

  /** What is read beyond a command line is a body up to the first dot line, or the line after an AUTH prompt. */
  lemma ReadsWhatIsAsked(cfg: Config, turns: seq<Turn>, n: nat)
    requires AllHeard(cfg, turns) && n < |turns| && turns[n].extra.Some?
    ensures |Play(cfg, turns).effects| == |turns|
    ensures var (t, text) := (turns[n], turns[n].extra.value);
            || (CommandOf(t) == VData && Record(text, "\r\n.\r\n"))
            || (CommandOf(t) == VAuth && Record(text, "\r\n") && AuthArgs(ArgumentOf(t)) == (true, "")
                && TlsUp in Play(cfg, turns).effects[..n])
  {
    hide Record, AuthArgs, Parse, PlayFrom, Respond;
    EffectsBefore(cfg, turns, n);
    HeardBefore(cfg, turns, n);
    RunRecalls(cfg, turns[..n]);
    assert Heard(Play(cfg, turns[..n]).session, turns[n]);
  }

  lemma OneEffect(cfg: Config, s: Session, turns: seq<Turn>, effects: seq<Effect>, t: Turn)
    requires Recalls(cfg, s, turns, effects)
    ensures var a := Respond(cfg, s, t); HasEffect(cfg, turns, effects, t, a.effect)
  {
    hide Parse, IsLocal, Domain, Accepted, AuthArgs, Bracketed, LastRecipient, LastSender, LastHost;
  }

  lemma OneAddressee(cfg: Config, s: Session, turns: seq<Turn>, effects: seq<Effect>, t: Turn)
    requires Recalls(cfg, s, turns, effects)
    ensures var a := Respond(cfg, s, t); GoesTo(cfg, turns, effects, t, a.effect, a.lines)
  {
    hide Parse, IsLocal, Domain, Accepted, AuthArgs, Bracketed, LastRecipient, LastSender, LastHost;
  }

  lemma OneAnswer(cfg: Config, s: Session, turns: seq<Turn>, effects: seq<Effect>, t: Turn)
    requires Recalls(cfg, s, turns, effects)
    ensures var a := Respond(cfg, s, t); Told(cfg, effects, t, a.lines)
  {
    hide Parse, IsLocal, Domain, Accepted, AuthArgs, Bracketed, LastRecipient, LastSender, LastHost;
  }

  /**
   For every run and every turn: what the turn does, whom it concerns and what the client is told follow from
   the lines of the client and the effects before it.
   */
  lemma MailGoesWhereAsked(cfg: Config, turns: seq<Turn>, n: nat)
    requires AllHeard(cfg, turns) && n < |turns|
    ensures |Play(cfg, turns).effects| == |turns|
    ensures var effects := Play(cfg, turns).effects;
            && HasEffect(cfg, turns[..n], effects[..n], turns[n], effects[n])
            && GoesTo(cfg, turns[..n], effects[..n], turns[n], effects[n], Answers(cfg, turns, n))
            && Told(cfg, effects[..n], turns[n], Answers(cfg, turns, n))
  {
    hide Respond, Heard, PlayFrom, HasEffect, GoesTo, Told, Recalls;
    EffectsBefore(cfg, turns, n);
    HeardBefore(cfg, turns, n);
    RunRecalls(cfg, turns[..n]);
    EffectOfTurn(cfg, turns, n);
    var s, before := Play(cfg, turns[..n]).session, Play(cfg, turns).effects[..n];
    OneEffect(cfg, s, turns[..n], before, turns[n]);
    OneAddressee(cfg, s, turns[..n], before, turns[n]);
    OneAnswer(cfg, s, turns[..n], before, turns[n]);
  }
}
