/** smtp.c: the local mail of a session in the recipient's mailbox. */
module Deliveries {
  import opened Views
  import opened Decimals
  import opened Maildir
  import opened Directory
  import opened Listings
  import opened SeqSets
  import opened Mailboxes
  import opened SmtpSession
  import Envelopes
  import Meanings
  import Relay

  /** The unique part of a delivered file: the clock and a random id, then the host of the sender. */
  function UniquePart(stamp: nat -> string, n: nat, host: string): string {
    stamp(n) + "." + host
  }

  /** Effect n wrote a message for this recipient. */
  predicate StoredFor(e: Effect, to: string) {
    e.Stored? && e.to == to && e.ok
  }

  /** The messages a run left for a recipient, in order. */
  function MailFor(effects: seq<Effect>, to: string, stamp: nat -> string): seq<Message> {
    if effects == [] then []
    else
      var n := |effects| - 1;
      var e := effects[n];
      MailFor(effects[..n], to, stamp) +
      if StoredFor(e, to) then [Message(UniquePart(stamp, n, e.host), NO_FLAGS, e.body)] else []
  }

  /** A path through a '/' leads to no directory, so no such write succeeded. */
  predicate PathsExist(effects: seq<Effect>, to: string, stamp: nat -> string) {
    forall n :: 0 <= n < |effects| && StoredFor(effects[n], to) ==> '/' !in UniquePart(stamp, n, effects[n].host)
  }

  /** No host that got into a file name, or the clock or id before it, has a ';'. */
  predicate UsableHosts(effects: seq<Effect>, to: string, stamp: nat -> string) {
    forall n :: 0 <= n < |effects| && StoredFor(effects[n], to) ==> ';' !in UniquePart(stamp, n, effects[n].host)
  }

  /**
   The writes of a run into one mailbox: names stay well formed with distinct UIDs exactly when no host has a
   ';', and then there is one message each, under the next UIDs, and nothing else changes.
   */
  method DeliverAll(mb: Mailbox, effects: seq<Effect>, to: string, stamp: nat -> string)
    requires PathsExist(effects, to, stamp)
    modifies mb
    ensures mb.Valid() <==> old(mb.Valid()) && UsableHosts(effects, to, stamp)
    ensures mb.Valid() ==>
              && Others(mb.dir) == old(Others(mb.dir))
              && View(mb.dir) == AddCopies(old(View(mb.dir)), Next(old(View(mb.dir))), MailFor(effects, to, stamp))
              && forall n :: n in old(mb.dir) ==> n in mb.dir && mb.dir[n] == old(mb.dir)[n]
  {
    hide Inv, View, Others, AddCopies, Next, UniquePart, Above, MailFor, UsableHosts, Grown;
    ghost var valid := mb.Valid();
    NothingDelivered(effects[..0], to, stamp, mb.dir);
    var i := 0;
    while i < |effects|
      invariant 0 <= i <= |effects|
      invariant mb.Valid() <==> valid && UsableHosts(effects[..i], to, stamp)
      invariant mb.Valid() ==> Grown(old(mb.dir), mb.dir, MailFor(effects[..i], to, stamp))
    {
      MailStep(effects, to, stamp, i);
      if effects[i].Stored? && effects[i].to == to && effects[i].ok {
        var base := UniquePart(stamp, i, effects[i].host);
        PartIsThere(stamp, i, effects[i].host);
        ghost var d := mb.dir;
        var _ := mb.Deliver(base, effects[i].body);
        if mb.Valid() {
          GrownOne(old(mb.dir), d, mb.dir, MailFor(effects[..i], to, stamp), Message(base, NO_FLAGS, effects[i].body));
        }
      }
      i := i + 1;
    }
    assert effects[..i] == effects;
    AllGrown(old(mb.dir), mb.dir, MailFor(effects, to, stamp));
  }

  lemma NothingDelivered(effects: seq<Effect>, to: string, stamp: nat -> string, d: Dir)
    ensures effects == [] ==> UsableHosts(effects, to, stamp)
    ensures effects == [] && Inv(d) ==> Grown(d, d, MailFor(effects, to, stamp))
  {
    hide Inv, View, Others, AddCopies, Next, UniquePart;
    if Inv(d) {
      NoCopies(View(d), Next(View(d)));
    }
  }

  lemma GrownOne(was: Dir, d: Dir, now: Dir, msgs: seq<Message>, m: Message)
    requires Grown(was, d, msgs) && Inv(now) && Others(now) == Others(d)
    requires View(now) == View(d)[Next(View(d)) := m] && forall n :: n in d ==> n in now && now[n] == d[n]
    ensures Grown(was, now, msgs + [m])
  {
    hide Inv, View, Others, AddCopies, Next;
    AddOneMore(View(was), msgs, m);
  }

  lemma AllGrown(was: Dir, now: Dir, msgs: seq<Message>)
    ensures Grown(was, now, msgs) ==>
              && Inv(was) && Inv(now) && Others(now) == Others(was)
              && View(now) == AddCopies(View(was), Next(View(was)), msgs)
              && forall n :: n in was ==> n in now && now[n] == was[n]
  {
    hide Inv, View, Others, AddCopies, Next;
  }

  /** The directory holds these messages more and is otherwise as it was. */
  ghost predicate Grown(was: Dir, now: Dir, msgs: seq<Message>) {
    && Inv(was) && Inv(now) && Others(now) == Others(was)
    && View(now) == AddCopies(View(was), Next(View(was)), msgs)
    && forall n :: n in was ==> n in now && now[n] == was[n]
  }

  lemma PartIsThere(stamp: nat -> string, n: nat, host: string)
    ensures UniquePart(stamp, n, host) != ""
  {
  }

  lemma MailStep(effects: seq<Effect>, to: string, stamp: nat -> string, i: nat)
    requires i < |effects|
    ensures MailFor(effects[..i + 1], to, stamp) ==
            if StoredFor(effects[i], to) then
              MailFor(effects[..i], to, stamp) +
              [Message(UniquePart(stamp, i, effects[i].host), NO_FLAGS, effects[i].body)]
            else MailFor(effects[..i], to, stamp)
    ensures UsableHosts(effects[..i + 1], to, stamp) <==>
            && UsableHosts(effects[..i], to, stamp)
            && (StoredFor(effects[i], to) ==> ';' !in UniquePart(stamp, i, effects[i].host))
  {
    assert effects[..i + 1][..i] == effects[..i];
    hide UniquePart;
  }

  lemma NoCopies(t: Table, next: nat)
    ensures AddCopies(t, next, []) == t
  {
  }

  lemma AddOneMore(t: Table, msgs: seq<Message>, m: Message)
    ensures var now := AddCopies(t, Next(t), msgs); AddCopies(t, Next(t), msgs + [m]) == now[Next(now) := m]
  {
    AddCopiesSpec(t, Next(t), msgs);
    OneMoreCopy(t, Next(t), msgs, m);
    hide Next, AddCopies;
  }

  // ---- which turn left which message ----

  /** The positions of the successful stores for a recipient. */
  function StoresFor(effects: seq<Effect>, to: string): seq<nat> {
    if effects == [] then []
    else
      var n := |effects| - 1;
      StoresFor(effects[..n], to) + if StoredFor(effects[n], to) then [n] else []
  }

  /** They are all of them, in order, and each left one message. */
  lemma {:induction false} MailIsStores(effects: seq<Effect>, to: string, stamp: nat -> string)
    ensures Ascending(StoresFor(effects, to))
    ensures forall n: nat :: n in StoresFor(effects, to) <==> n < |effects| && StoredFor(effects[n], to)
    ensures |MailFor(effects, to, stamp)| == |StoresFor(effects, to)|
    ensures forall i :: 0 <= i < |StoresFor(effects, to)| ==> LeftBy(effects, to, stamp, i)
  {
    if effects != [] {
      var k := |effects| - 1;
      MailIsStores(effects[..k], to, stamp);
      var front, stores := StoresFor(effects[..k], to), StoresFor(effects, to);
      hide UniquePart;
      forall i | 0 <= i < |front| ensures front[i] < k {
        assert front[i] in front;
      }
      forall i | 0 <= i < |stores| ensures LeftBy(effects, to, stamp, i) {
        if i < |front| {
          assert LeftBy(effects[..k], to, stamp, i);
          assert front[i] in front;
        }
      }
    }
  }

  /** Message i is the one the i-th store wrote. */
  predicate LeftBy(effects: seq<Effect>, to: string, stamp: nat -> string, i: nat) {
    && i < |StoresFor(effects, to)| && i < |MailFor(effects, to, stamp)|
    && var n := StoresFor(effects, to)[i];
       && n < |effects| && StoredFor(effects[n], to)
       && MailFor(effects, to, stamp)[i] == Message(UniquePart(stamp, n, effects[n].host), NO_FLAGS, effects[n].body)
  }

  /** The message is what stood before the first dot line of the turn's DATA. */
  predicate SentAs(t: Turn, m: Message) {
    t.extra.Some? && Relay.CutBody(t.extra.value) == Some((m.bytes, "")) && m.flags == NO_FLAGS
  }

  /** The turn's recipient and host are those its client named last. */
  predicate SentTo(cfg: Config, turns: seq<Turn>, effects: seq<Effect>, n: nat, to: string)
    requires n < |turns| == |effects|
  {
    && Envelopes.LastRecipient(cfg, turns[..n], effects[..n]) == to
    && effects[n].Stored?
    && var host := Envelopes.LastHost(turns[..n], effects[..n]);
       effects[n].host == if host == "" then "localhost" else host
  }

  /**
   For every run and recipient: the i-th message left was stored by the i-th turn with a successful store;
   that recipient was the last one its client named, and its bytes are what the client sent in that turn up
   to the first dot line.
   */
  lemma MailWasSent(cfg: Config, turns: seq<Turn>, to: string, stamp: nat -> string, i: nat)
    requires AllHeard(cfg, turns) && i < |MailFor(Play(cfg, turns).effects, to, stamp)|
    ensures var effects := Play(cfg, turns).effects;
            && |effects| == |turns| && i < |StoresFor(effects, to)|
            && var n := StoresFor(effects, to)[i];
               && n < |turns| && StoredFor(effects[n], to)
               && effects[n] == Respond(cfg, Play(cfg, turns[..n]).session, turns[n]).effect
               && SentTo(cfg, turns, effects, n, to)
               && SentAs(turns[n], MailFor(effects, to, stamp)[i])
  {
    hide Respond, Heard, PlayFrom, Envelopes.HasEffect, Envelopes.Told, Envelopes.LastRecipient, Envelopes.LastHost;
    var effects := Play(cfg, turns).effects;
    MailIsStores(effects, to, stamp);
    assert LeftBy(effects, to, stamp, i);
    hide StoresFor, MailFor, UniquePart;
    var n := StoresFor(effects, to)[i];
    TurnsAndEffects(cfg, turns);
    EffectOfTurn(cfg, turns, n);
    BodyWasSent(cfg, Play(cfg, turns[..n]).session, turns[n]);
    Envelopes.MailGoesWhereAsked(cfg, turns, n);
  }

  lemma TurnsAndEffects(cfg: Config, turns: seq<Turn>)
    requires AllHeard(cfg, turns)
    ensures |Play(cfg, turns).effects| == |turns|
  {
    hide PlayFrom, Heard, Respond;
    if turns == [] {
      NoEffects(cfg, turns);
    } else {
      EffectOfTurn(cfg, turns, 0);
    }
  }

  // ---- from DATA to FETCH ----

  /** UID FETCH of one message names that message and no other. */
  lemma OnlyThatUid(t: Table, u: nat, i: nat)
    requires i < |UidList(t)| && 1 <= u <= INT_MAX && forall v :: v in t ==> v >= 1
    ensures Addressed(Decimal(u), true, UidList(t), i) <==> UidList(t)[i] == u
  {
    UidListSpec(t);
    var us := UidList(t);
    assert us[i] in us;
    IntOfDecimal(u);
    LoneNumber(u, us[i], SetMax(true, us));
  }

  /** If the set names one message only, there is one reply, once that message is passed. */
  lemma {:induction false} OneReply(t: Table, us: seq<nat>, set_: string, items: FetchItems, p: nat, n: nat)
    requires Ascending(us) && p < |us| && n <= |us| && forall v :: v in us ==> v in t
    requires forall i :: 0 <= i < |us| ==> (Addressed(set_, true, us, i) <==> i == p)
    ensures Replies(t, set_, true, us, items, n) ==
            if n <= p then [] else [ReplyFor(t, us, items, p)]
  {
    hide Addressed, Part, SentFlags;
    if n > 0 {
      OneReply(t, us, set_, items, p, n - 1);
      assert Addressed(set_, true, us, n - 1) <==> n - 1 == p;
    }
  }

  ghost function ReplyFor(t: Table, us: seq<nat>, items: FetchItems, p: nat): Mailboxes.Reply
    requires p < |us| && us[p] in t
  {
    var m := t[us[p]];
    Mailboxes.Reply(p + 1, us[p], SentFlags(m, items), m.bytes, Part(items, m.bytes))
  }

  lemma WhereListed(t: Table, u: nat) returns (p: nat)
    requires u in t
    ensures p < |UidList(t)| && UidList(t)[p] == u
  {
    UidListSpec(t);
    assert u in UidList(t);
    p :| 0 <= p < |UidList(t)| && UidList(t)[p] == u;
  }

  /** A UID FETCH of a live message with a file that is not empty goes through and replies once. */
  lemma FetchOne(t: Table, u: nat, items: FetchItems, ok: bool, n: nat, now: Table, replies: seq<Mailboxes.Reply>)
    requires 1 <= u <= INT_MAX && (forall v :: v in t ==> v >= 1) && u in t && t[u].bytes != ""
    requires FetchResult(t, Decimal(u), true, items, ok, n, now, replies)
    ensures ok && |replies| == 1
    ensures var r := replies[0];
            && r.uid == u && r.bytes == t[u].bytes
            && r.flags == SentFlags(t[u], items) && r.part == Part(items, t[u].bytes)
  {
    var p := WhereListed(t, u);
    UidListSpec(t);
    hide Addressed, NoneEmpty, AddressedUids;
    var us := UidList(t);
    forall i | 0 <= i < |us| ensures Addressed(Decimal(u), true, us, i) <==> i == p {
      OnlyThatUid(t, u, i);
      assert i < p ==> us[i] < us[p];
      assert p < i ==> us[p] < us[i];
    }
    OneReply(t, us, Decimal(u), items, p, |us|);
  }

  /** From DATA to FETCH: what was delivered and is not empty is what UID FETCH BODY[] of its UID sends. */
  method DeliverAndFetch(mb: Mailbox, base: string, body: string, peek: bool)
    returns (uid: nat, ok: bool, replies: seq<Mailboxes.Reply>)
    requires mb.Valid() && UsableBase(base) && body != "" && Next(View(mb.dir)) <= INT_MAX
    modifies mb
    ensures mb.Valid() && uid == Next(old(View(mb.dir))) && ok
    ensures |replies| == 1 && replies[0].uid == uid && replies[0].part == Some(body)
    ensures replies[0].flags == NO_FLAGS.(seen := !peek)
  {
    hide Inv, View, Others, Next, FetchResult, UidList;
    ghost var before := View(mb.dir);
    NextIsPositive(before);
    var u := mb.Deliver(base, body);
    uid := u.value;
    ghost var t := View(mb.dir);
    ghost var items := FetchItems(true, peek, false, "");
    Meanings.LiveUids(mb.dir);
    ghost var done;
    ok, replies, done := mb.Fetch(Decimal(uid), true, FetchItems(true, peek, false, ""));
    FetchOne(t, uid, items, ok, done, View(mb.dir), replies);
  }

  lemma NextIsPositive(t: Table)
    ensures Next(t) >= 1
  {
  }
}
