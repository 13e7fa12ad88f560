/**
 A mailbox directory as maildir.c sees it, and the table of messages it stands for.

 Everything the server knows about a message but its bytes is in the file name, so the state is a map
 from names to bytes; View is the table by UID that the names encode.
 */
module Directory {
  import opened Views
  import opened Maildir

  /** File name to file contents. */
  type Dir = map<string, string>

  const UIDVALIDITY_FILE := ".uidvalidity"

  datatype Message = Message(base: string, flags: Flags, bytes: string)

  type Table = map<nat, Message>

  /** Every file is a message the server named or the UIDVALIDITY file, and no two messages share a UID. */
  ghost predicate Inv(d: Dir) {
    && (forall n :: n in d ==> n == UIDVALIDITY_FILE || WellFormed(n))
    && (forall a, b :: a in d && b in d && WellFormed(a) && WellFormed(b) && ParseUid(a) == ParseUid(b) ==> a == b)
  }

  function MessageOf(name: string, bytes: string): Message {
    Message(FlagsBasename(name), ParseFlags(name), bytes)
  }

  ghost function UidsOf(d: Dir): set<nat> {
    set n | n in d && WellFormed(n) :: ParseUid(n)
  }

  ghost function NameAt(d: Dir, uid: nat): (n: string)
    requires uid in UidsOf(d)
    ensures n in d && WellFormed(n) && ParseUid(n) == uid
  {
    var n :| n in d && WellFormed(n) && ParseUid(n) == uid;
    n
  }

  ghost function View(d: Dir): Table
    requires Inv(d)
  {
    map u | u in UidsOf(d) :: MessageOf(NameAt(d, u), d[NameAt(d, u)])
  }

  /** The file name a message has at a UID. */
  function NameFor(uid: nat, m: Message): string {
    MaildirFilename(m.base, uid, m.flags)
  }

  lemma ViewHas(d: Dir, n: string)
    requires Inv(d) && n in d && WellFormed(n)
    ensures ParseUid(n) in View(d) && View(d)[ParseUid(n)] == MessageOf(n, d[n])
    ensures n == NameFor(ParseUid(n), View(d)[ParseUid(n)])
  {
    assert ParseUid(n) in UidsOf(d);
    assert NameAt(d, ParseUid(n)) == n;
  }

  /** The table determines every message file of the directory. */
  lemma ViewName(d: Dir, uid: nat)
    requires Inv(d) && uid in View(d)
    ensures var n := NameFor(uid, View(d)[uid]);
            n in d && WellFormed(n) && ParseUid(n) == uid && View(d)[uid] == MessageOf(n, d[n]) && uid >= 1
  {
    ViewHas(d, NameAt(d, uid));
  }

  /** A unique part the server may use: its own clock, random id and host name. */
  predicate UsableBase(base: string) {
    base != "" && ';' !in base && '/' !in base
  }

  /** The files that are no messages. */
  ghost function Others(d: Dir): Dir {
    map n | n in d && !WellFormed(n) :: d[n]
  }

  // ---- the three changes a directory undergoes ----

  lemma WellFormedParts(n: string)
    requires WellFormed(n)
    ensures ParseUid(n) >= 1 && FlagsBasename(n) != "" && ';' !in FlagsBasename(n)
  {
    BasenameHasNoSemicolon(n);
  }

  /** Two tables are equal if the rows under every UID are. */
  lemma SameTable(a: Table, b: Table)
    requires forall u :: (u in a <==> u in b) && (u in a ==> a[u] == b[u])
    ensures a == b
  {
  }

  /** Writing a message under a fresh UID lands on no existing file and adds one row. */
  lemma WriteMessage(d: Dir, base: string, uid: nat, f: Flags, bytes: string)
    requires Inv(d) && UsableBase(base) && uid >= 1 && uid !in View(d)
    ensures var n := MaildirFilename(base, uid, f); var d' := d[n := bytes];
            n !in d && Inv(d') && View(d') == View(d)[uid := Message(base, f, bytes)] && Others(d') == Others(d)
  {
    hide ParseUid, ParseFlags, FlagsBasename, MaildirFilename, WellFormed;
    PrintedIsWellFormed(base, uid, f);
    CodecRoundTrip(base, uid, f);
    WriteNamed(d, MaildirFilename(base, uid, f), bytes);
  }

  /** Writing under a fresh UID keeps every name well formed if and only if the unique part is one for parsing. */
  lemma WriteKeepsInvExactly(d: Dir, base: string, uid: nat, f: Flags, bytes: string)
    requires Inv(d) && uid >= 1 && uid !in View(d)
    ensures MaildirFilename(base, uid, f) !in d
    ensures Inv(d[MaildirFilename(base, uid, f) := bytes]) <==> base != "" && ';' !in base
  {
    hide ParseUid, ParseFlags, View;
    var n := MaildirFilename(base, uid, f);
    if base != "" && ';' !in base {
      PrintedIsWellFormed(base, uid, f);
      CodecRoundTrip(base, uid, f);
      WriteNamed(d, n, bytes);
    } else {
      NotWellFormed(base, uid, f);
      NameParts(base, uid, f);
      assert n[|n| - 1] == 'l';
      assert n in d[n := bytes] && n != UIDVALIDITY_FILE;
    }
  }

  /** A write over or beside a broken directory leaves it broken. */
  lemma StaysBroken(d: Dir, n: string, bytes: string)
    requires !Inv(d)
    ensures !Inv(d[n := bytes])
  {
    hide ParseUid, WellFormed;
    assert forall m :: m in d ==> m in d[n := bytes];
  }

  lemma WriteNamed(d: Dir, n: string, bytes: string)
    requires Inv(d) && WellFormed(n) && ParseUid(n) !in View(d)
    ensures var d' := d[n := bytes];
            n !in d && Inv(d') && View(d') == View(d)[ParseUid(n) := MessageOf(n, bytes)] && Others(d') == Others(d)
  {
    hide ParseUid, ParseFlags, FlagsBasename, MaildirFilename, WellFormed;
    hide UidsOf, Inv;
    var d' := d[n := bytes];
    var uid := ParseUid(n);
    AddedInv(d, n, bytes);
    var t := View(d)[uid := MessageOf(n, bytes)];
    forall u ensures (u in View(d') <==> u in t) && (u in View(d') ==> View(d')[u] == t[u]) {
      AddedRow(d, n, bytes, u);
    }
    SameTable(View(d'), t);
    assert Others(d') == Others(d);
  }

  /** A file that is not a message changes nothing. */
  lemma WriteOther(d: Dir, n: string, bytes: string)
    requires Inv(d) && n == UIDVALIDITY_FILE && !WellFormed(n)
    ensures Inv(d[n := bytes]) && View(d[n := bytes]) == View(d)
  {
    hide ParseUid, ParseFlags, FlagsBasename, MaildirFilename, WellFormed;
    var d' := d[n := bytes];
    forall u ensures (u in View(d') <==> u in View(d)) && (u in View(d') ==> View(d')[u] == View(d)[u]) {
      if u in View(d') {
        ViewName(d', u);
        ViewHas(d, NameFor(u, View(d')[u]));
      } else if u in View(d) {
        ViewName(d, u);
        ViewHas(d', NameFor(u, View(d)[u]));
      }
    }
    SameTable(View(d'), View(d));
  }

  lemma AddedInv(d: Dir, n: string, bytes: string)
    requires Inv(d) && WellFormed(n) && ParseUid(n) !in View(d)
    ensures n !in d && Inv(d[n := bytes])
  {
    hide ParseUid, ParseFlags, FlagsBasename, MaildirFilename, WellFormed, View;
    forall a | a in d && WellFormed(a) ensures ParseUid(a) in View(d) { ViewHas(d, a); }
  }

  lemma AddedRow(d: Dir, n: string, bytes: string, u: nat)
    requires Inv(d) && n !in d && WellFormed(n) && Inv(d[n := bytes])
    ensures u in View(d[n := bytes]) <==> u in View(d) || u == ParseUid(n)
    ensures u in View(d[n := bytes]) ==>
            View(d[n := bytes])[u] == if u == ParseUid(n) then MessageOf(n, bytes) else View(d)[u]
  {
    hide ParseUid, ParseFlags, FlagsBasename, MaildirFilename, WellFormed;
    var d' := d[n := bytes];
    ViewHas(d', n);
    if u in View(d') {
      ViewName(d', u);
      var m := NameFor(u, View(d')[u]);
      if m != n { ViewHas(d, m); }
    } else if u in View(d) {
      ViewName(d, u);
      ViewHas(d', NameFor(u, View(d)[u]));
    }
  }

  lemma RemoveMessage(d: Dir, n: string)
    requires Inv(d) && n in d && WellFormed(n)
    ensures var d' := d - {n};
            Inv(d') && View(d') == View(d) - {ParseUid(n)} && Others(d') == Others(d)
  {
    hide ParseUid, ParseFlags, FlagsBasename, MaildirFilename, WellFormed;
    var d' := d - {n};
    assert Inv(d');
    var t := View(d) - {ParseUid(n)};
    forall u ensures (u in View(d') <==> u in t) && (u in View(d') ==> View(d')[u] == t[u]) {
      RemovedRow(d, n, u);
    }
    SameTable(View(d'), t);
    assert Others(d') == Others(d);
  }

  lemma RemovedRow(d: Dir, n: string, u: nat)
    requires Inv(d) && n in d && WellFormed(n) && Inv(d - {n})
    ensures u in View(d - {n}) <==> u in View(d) && u != ParseUid(n)
    ensures u in View(d - {n}) ==> View(d - {n})[u] == View(d)[u]
  {
    hide ParseUid, ParseFlags, FlagsBasename, MaildirFilename, WellFormed;
    var d' := d - {n};
    if u in View(d') {
      ViewName(d', u);
      ViewHas(d, NameFor(u, View(d')[u]));
    } else if u in View(d) {
      ViewName(d, u);
      var m := NameFor(u, View(d)[u]);
      if m != n { ViewHas(d', m); }
    }
  }

  lemma ReplaceRow(t: Table, u: nat, m: Message)
    ensures (t - {u})[u := m] == t[u := m]
  {
  }

  /** Renaming to other flags lands on no other file and changes the flags of one row. */
  lemma RenameMessage(d: Dir, n: string, f: Flags)
    requires Inv(d) && n in d && WellFormed(n)
    ensures var n' := MaildirFilename(FlagsBasename(n), ParseUid(n), f);
            var d' := (d - {n})[n' := d[n]];
            var u := ParseUid(n);
            && (n' == n || n' !in d) && Inv(d') && n' in d' && WellFormed(n') && ParseUid(n') == u
            && ParseFlags(n') == f && FlagsBasename(n') == FlagsBasename(n)
            && u in View(d) && View(d') == View(d)[u := View(d)[u].(flags := f)] && Others(d') == Others(d)
  {
    hide ParseUid, ParseFlags, FlagsBasename, MaildirFilename, WellFormed;
    var base, uid := FlagsBasename(n), ParseUid(n);
    var n' := MaildirFilename(base, uid, f);
    var d0 := d - {n};
    WellFormedParts(n);
    PrintedIsWellFormed(base, uid, f);
    CodecRoundTrip(base, uid, f);
    ViewHas(d, n);
    RemoveMessage(d, n);
    ReplaceRow(View(d), uid, View(d)[uid].(flags := f));
    assert MessageOf(n', d[n]) == View(d)[uid].(flags := f);
    WriteNamed(d0, n', d[n]);
  }

  /** Removing message files removes exactly their rows. */
  lemma RemoveMessages(d: Dir, dead: set<string>, gone: set<nat>)
    requires Inv(d) && forall n :: n in dead ==> n in d && WellFormed(n)
    requires forall n :: n in d && WellFormed(n) ==> (n in dead <==> ParseUid(n) in gone)
    ensures Inv(d - dead) && View(d - dead) == View(d) - gone && Others(d - dead) == Others(d)
  {
    hide ParseUid, ParseFlags, FlagsBasename, MaildirFilename, WellFormed;
    var d' := d - dead;
    assert Inv(d');
    var t := View(d) - gone;
    forall u ensures (u in View(d') <==> u in t) && (u in View(d') ==> View(d')[u] == t[u]) {
      if u in View(d') {
        ViewName(d', u);
        ViewHas(d, NameFor(u, View(d')[u]));
      }
      if u in t {
        ViewName(d, u);
        ViewHas(d', NameFor(u, View(d)[u]));
      }
    }
    SameTable(View(d'), t);
    assert Others(d') == Others(d);
  }
}
