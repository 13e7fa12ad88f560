/** imap.c and smtp.c: the commands that change a mailbox, each one atomic step on the directory. */
module Mailboxes {
  import opened Views
  import opened Decimals
  import opened Maildir
  import opened ImapFlags
  import opened SeqSets
  import opened Directory
  import opened Listings
  import opened Expunges
  import HeaderFilter

  datatype Echo = Echo(position: nat, uid: nat, flags: string)
  /** One FETCH reply: where the message stands, its flags as stored now, its file, and the BODY data sent. */
  datatype Reply = Reply(position: nat, uid: nat, flags: Flags, bytes: string, part: Option<string>)

  // ---- arguments ----

  /** Which listed messages a FETCH or COPY addresses: by UID or by sequence number. */
  predicate Addressed(set_: string, isUid: bool, us: seq<nat>, i: nat)
    requires i < |us|
  {
    InRanges(ParseSeqSet(set_, SetMax(isUid, us)), if isUid then us[i] else i + 1)
  }

  function SetMax(isUid: bool, us: seq<nat>): nat {
    if isUid then (if us == [] then 0 else us[|us| - 1]) else |us|
  }

  predicate StoreMatch(number: int, isUid: bool, us: seq<nat>, i: nat)
    requires i < |us|
  {
    if isUid then us[i] == number else i + 1 == number
  }

  /** The message a STORE addresses, as an index into the listing. */
  function StoreIndex(number: int, isUid: bool, us: seq<nat>, i: nat): (r: Option<nat>)
    requires i <= |us|
    ensures r.Some? ==> i <= r.value < |us| && StoreMatch(number, isUid, us, r.value)
    ensures r.None? ==> forall j :: i <= j < |us| ==> !StoreMatch(number, isUid, us, j)
    decreases |us| - i
  {
    if i == |us| then None
    else if StoreMatch(number, isUid, us, i) then Some(i)
    else StoreIndex(number, isUid, us, i + 1)
  }

  /** The flags after STORE: a leading '-' removes, a leading '+' or an empty item adds, all else replaces. */
  function StoreFlags(was: Flags, op: string, list: string): Flags {
    ApplyList(StripParens(list), if op != "" && op[0] != '+' && op[0] != '-' then NO_FLAGS else was,
              !(op != "" && op[0] == '-'))
  }

  /** What STORE makes of a table: the addressed row gets the flags, and the reply shows them. */
  ghost predicate StoreResult(t: Table, args: string, isUid: bool, now: Table, echo: Option<Echo>) {
    var us := UidList(t);
    var (number, op, list) := StoreArgs(args);
    match StoreIndex(number, isUid, us, 0)
    case None => echo == None && now == t
    case Some(i) =>
      && us[i] in t
      && var f := StoreFlags(t[us[i]].flags, op, list);
         now == t[us[i] := t[us[i]].(flags := f)] && echo == Some(Echo(i + 1, us[i], FlagsToImap(f)))
  }

  lemma NotFound(t: Table, args: string, isUid: bool)
    requires StoreIndex(StoreArgs(args).0, isUid, UidList(t), 0) == None
    ensures StoreResult(t, args, isUid, t, None)
  {
    hide StoreIndex, StoreArgs, UidList;
  }

  lemma Found(t: Table, args: string, isUid: bool, i: nat, f: Flags, now: Table, e: Echo)
    requires i < |UidList(t)| && UidList(t)[i] in t
    requires var ((number, op, list), u) := (StoreArgs(args), UidList(t)[i]);
             && StoreIndex(number, isUid, UidList(t), 0) == Some(i) && f == StoreFlags(t[u].flags, op, list)
             && now == t[u := t[u].(flags := f)] && e == Echo(i + 1, u, FlagsToImap(f))
    ensures StoreResult(t, args, isUid, now, Some(e))
  {
    hide StoreIndex, StoreArgs, UidList, StoreFlags, FlagsToImap;
  }

  /** STORE computes set union, difference or replacement, for every list of flags. */
  lemma StoreMeaning(was: Flags, op: string, toks: seq<string>)
    requires Tokens(toks)
    ensures var r := FlagSet(StoreFlags(was, op, "(" + Join(toks) + ")"));
            r == if op == "" || op[0] == '+' then FlagSet(was) + Named(toks)
                 else if op[0] == '-' then FlagSet(was) - Named(toks)
                 else Named(toks)
  {
    StripParensOf(Join(toks));
    var replace := op != "" && op[0] != '+' && op[0] != '-';
    var on := !(op != "" && op[0] == '-');
    var base := if replace then NO_FLAGS else was;
    ApplyListJoin(toks, base, on);
    ApplyTokensSet(toks, base, on);
    assert FlagSet(NO_FLAGS) == {};
  }

  /** Feeding the FLAGS reply back as a replacement keeps the flags. */
  lemma StoreEcho(was: Flags, f: Flags)
    ensures StoreFlags(was, "FLAGS", FlagsToImap(f)) == f
  {
    EchoRoundTrip(f);
  }

  // ---- FETCH ----

  /** What a FETCH asks for; the section is the text between the brackets of BODY[...]. */
  datatype FetchItems = FetchItems(body: bool, peek: bool, size: bool, section: string) {
    /** BODY without PEEK marks the message seen. */
    predicate Marks() {
      body && !peek
    }

    /** The file has to be read, which an empty one makes fail. */
    predicate Reads() {
      body || size
    }
  }

  /** The BODY data of a message for a section; a section the server does not know stands for all of it. */
  function SectionOf(section: string, full: string): string {
    if EqualIgnoreCase(section, "HEADER") then HeaderFilter.ExtractHeaders(full)
    else if EqualIgnoreCase(section, "TEXT") then HeaderFilter.ExtractText(full)
    else if |section| >= 13 && EqualIgnoreCase(section[..13], "HEADER.FIELDS") then
      HeaderFilter.FilterHeaderFields(full, FieldsAsked(Trim(section[13..])))
    else full
  }

  /** HEADER.FIELDS.NOT is read like HEADER.FIELDS. */
  function FieldsAsked(fields: string): string {
    if |fields| > 4 && EqualIgnoreCase(fields[..4], ".NOT") then Trim(fields[4..]) else fields
  }

  function Part(items: FetchItems, full: string): Option<string> {
    if items.body then Some(SectionOf(items.section, full)) else None
  }

  method CutSection(section: string, full: string) returns (data: string)
    ensures data == SectionOf(section, full)
  {
    data := full;
    if section == "" {
      data := full;
    } else if EqualIgnoreCase(section, "HEADER") {
      data := HeaderFilter.ExtractHeaders(full);
    } else if EqualIgnoreCase(section, "TEXT") {
      data := HeaderFilter.ExtractText(full);
    } else if |section| >= 13 && EqualIgnoreCase(section[..13], "HEADER.FIELDS") {
      var fields := SvTrim(section[13..]);
      if |fields| > 4 && EqualIgnoreCase(fields[..4], ".NOT") {
        fields := SvTrim(fields[4..]);
      }
      var filtered, _ := HeaderFilter.FilterFields(full, fields);
      data := filtered;
    }
  }

  /** The header and text parts of one message are the whole of it. */
  lemma PartsRejoin(full: string)
    ensures SectionOf("HEADER", full) + SectionOf("TEXT", full) == SectionOf("", full) == full
  {
    HeaderFilter.HeadersAndText(full);
  }

  /** The rows of seen messages marked, the others as they were. */
  ghost function MarkSeen(t: Table, seen: set<nat>): Table {
    map u | u in t :: if u in seen then t[u].(flags := t[u].flags.(seen := true)) else t[u]
  }

  /** The addressed messages among the first n. */
  ghost function AddressedUids(set_: string, isUid: bool, us: seq<nat>, n: nat): set<nat>
    requires n <= |us|
  {
    set i | 0 <= i < n && Addressed(set_, isUid, us, i) :: us[i]
  }

  /** The table after the first n messages of a FETCH. */
  ghost function Fetched(t: Table, set_: string, isUid: bool, us: seq<nat>, items: FetchItems, n: nat): Table
    requires n <= |us|
  {
    if items.Marks() then MarkSeen(t, AddressedUids(set_, isUid, us, n)) else t
  }

  /** The replies for the first n messages: position, UID, flags as stored now, and the bytes. */
  ghost function Replies(t: Table, set_: string, isUid: bool, us: seq<nat>, items: FetchItems, n: nat): seq<Reply>
    requires n <= |us| && forall u :: u in us ==> u in t
  {
    if n == 0 then []
    else
      Replies(t, set_, isUid, us, items, n - 1) +
      if !Addressed(set_, isUid, us, n - 1) then []
      else [Reply(n, us[n - 1], SentFlags(t[us[n - 1]], items), t[us[n - 1]].bytes,
                  Part(items, t[us[n - 1]].bytes))]
  }

  function SentFlags(m: Message, items: FetchItems): Flags {
    if items.Marks() then m.flags.(seen := true) else m.flags
  }

  /** A message not yet reached still has its row, and marking it gives the next table. */
  lemma FetchedStep(t: Table, set_: string, isUid: bool, us: seq<nat>, items: FetchItems, n: nat)
    requires n < |us| && Ascending(us) && us[n] in t
    ensures var t0, t1 := Fetched(t, set_, isUid, us, items, n), Fetched(t, set_, isUid, us, items, n + 1);
            var u := us[n];
            && u in t0 && t0[u] == t[u]
            && t1 == if items.Marks() && Addressed(set_, isUid, us, n)
                     then t0[u := t[u].(flags := t[u].flags.(seen := true))] else t0
  {
    hide Addressed;
    var a, b := AddressedUids(set_, isUid, us, n), AddressedUids(set_, isUid, us, n + 1);
    assert b == a + (if Addressed(set_, isUid, us, n) then {us[n]} else {});
    assert us[n] !in a;
  }

  /** After the first n messages of a FETCH on t. */
  ghost predicate FetchState(t: Table, set_: string, isUid: bool, items: FetchItems, n: nat, now: Table,
                             replies: seq<Reply>)
  {
    var us := UidList(t);
    && n <= |us| && (forall u :: u in us ==> u in t)
    && now == Fetched(t, set_, isUid, us, items, n)
    && replies == Replies(t, set_, isUid, us, items, n)
  }

  /** No addressed message among the first n has an empty file. */
  ghost predicate NoneEmpty(t: Table, set_: string, isUid: bool, n: nat) {
    var us := UidList(t);
    n <= |us| && forall i :: 0 <= i < n && Addressed(set_, isUid, us, i) ==> us[i] in t && t[us[i]].bytes != ""
  }

  lemma NoneYet(t: Table, set_: string, isUid: bool)
    ensures NoneEmpty(t, set_, isUid, 0)
  {
  }

  lemma NoneEmptyStep(t: Table, set_: string, isUid: bool, n: nat)
    requires NoneEmpty(t, set_, isUid, n) && n < |UidList(t)|
    requires Addressed(set_, isUid, UidList(t), n) ==> UidList(t)[n] in t && t[UidList(t)[n]].bytes != ""
    ensures NoneEmpty(t, set_, isUid, n + 1)
  {
    hide Addressed;
  }

  /** FETCH reached the end, or stopped at an addressed message whose file is empty. */
  ghost predicate FetchResult(t: Table, set_: string, isUid: bool, items: FetchItems, ok: bool, n: nat, now: Table,
                              replies: seq<Reply>)
  {
    var us := UidList(t);
    && (items.Reads() ==> NoneEmpty(t, set_, isUid, n))
    && if ok then n == |us| && FetchState(t, set_, isUid, items, n, now, replies)
    else
      && items.Reads() && n < |us| && us[n] in t && Addressed(set_, isUid, us, n) && t[us[n]].bytes == ""
      && exists r :: FetchState(t, set_, isUid, items, n + 1, now, replies + [r])
  }

  lemma FetchStart(t: Table, set_: string, isUid: bool, items: FetchItems)
    ensures FetchState(t, set_, isUid, items, 0, t, [])
  {
    UidListSpec(t);
    assert AddressedUids(set_, isUid, UidList(t), 0) == {};
  }

  lemma FetchSkip(t: Table, set_: string, isUid: bool, items: FetchItems, n: nat, now: Table, replies: seq<Reply>)
    requires FetchState(t, set_, isUid, items, n, now, replies) && n < |UidList(t)|
    requires !Addressed(set_, isUid, UidList(t), n)
    ensures FetchState(t, set_, isUid, items, n + 1, now, replies)
  {
    hide Addressed;
    UidListSpec(t);
    FetchedStep(t, set_, isUid, UidList(t), items, n);
    assert replies + [] == replies;
  }

  lemma FetchNext(t: Table, set_: string, isUid: bool, items: FetchItems, n: nat, now: Table, replies: seq<Reply>)
    requires FetchState(t, set_, isUid, items, n, now, replies) && n < |UidList(t)|
    requires Addressed(set_, isUid, UidList(t), n)
    ensures var u := UidList(t)[n];
            && u in t && u in now && now[u] == t[u]
            && FetchState(t, set_, isUid, items, n + 1,
                          if items.Marks() then now[u := now[u].(flags := now[u].flags.(seen := true))] else now,
                          replies +
                          [Reply(n + 1, u, SentFlags(now[u], items), now[u].bytes, Part(items, now[u].bytes))])
  {
    hide Addressed;
    UidListSpec(t);
    FetchedStep(t, set_, isUid, UidList(t), items, n);
  }

  lemma SameRow(t: Table, u: nat, m: Message)
    requires u in t && t[u] == m
    ensures t[u := m] == t
  {
  }

  // ---- COPY ----

  /** Messages appended under consecutive UIDs. */
  ghost function AddCopies(t: Table, next: nat, msgs: seq<Message>): Table {
    if msgs == [] then t
    else AddCopies(t, next, msgs[..|msgs| - 1])[next + |msgs| - 1 := msgs[|msgs| - 1]]
  }

  /** r is t with the messages appended from next on. */
  ghost predicate Appended(t: Table, next: nat, msgs: seq<Message>, r: Table) {
    && Next(r) == next + |msgs|
    && (forall u :: u in t ==> u in r && r[u] == t[u])
    && (forall u :: next <= u < next + |msgs| ==> u in r && r[u] == msgs[u - next])
    && (forall u :: u in r ==> u in t || next <= u < next + |msgs|)
  }

  /** The destination keeps every message and gains exactly the copies, in order, from Next on. */
  lemma {:induction false} AddCopiesSpec(t: Table, next: nat, msgs: seq<Message>)
    requires next == Next(t)
    ensures Appended(t, next, msgs, AddCopies(t, next, msgs))
  {
    hide Appended;
    if msgs == [] {
      AppendedNone(t, next);
    } else {
      var front, m := msgs[..|msgs| - 1], msgs[|msgs| - 1];
      AddCopiesSpec(t, next, front);
      AppendedOne(t, next, front, AddCopies(t, next, front), m);
      assert msgs == front + [m];
    }
  }

  lemma AppendedNone(t: Table, next: nat)
    requires next == Next(t)
    ensures Appended(t, next, [], t)
  {
  }

  lemma NextAfter(r: Table, n: nat, m: Message)
    requires n == Next(r)
    ensures Next(r[n := m]) == n + 1
  {
    var r' := r[n := m];
    assert r'.Keys == r.Keys + {n};
    assert n in r'.Keys;
  }

  lemma BelowNext(t: Table, u: nat)
    requires u in t
    ensures u < Next(t)
  {
    assert u in t.Keys;
  }

  lemma AppendedOne(t: Table, next: nat, msgs: seq<Message>, r: Table, m: Message)
    requires next == Next(t) && Appended(t, next, msgs, r)
    ensures Appended(t, next, msgs + [m], r[next + |msgs| := m])
  {
    hide Next;
    NextAfter(r, next + |msgs|, m);
    forall v | v in t ensures v < next {
      BelowNext(t, v);
    }
  }

  /** The UIDs addressed among the first n, in order. */
  function PickedUids(set_: string, isUid: bool, us: seq<nat>, n: nat): seq<nat>
    requires n <= |us|
  {
    if n == 0 then []
    else PickedUids(set_, isUid, us, n - 1) + (if Addressed(set_, isUid, us, n - 1) then [us[n - 1]] else [])
  }

  /** What is written for them: the source's flags and bytes under fresh unique parts. */
  ghost function CopiesOf(t: Table, uids: seq<nat>, base: nat -> string): seq<Message>
    requires forall u :: u in uids ==> u in t
  {
    seq(|uids|, i requires 0 <= i < |uids| => Message(base(i), t[uids[i]].flags, t[uids[i]].bytes))
  }

  /** After the first n messages of a COPY from t into a mailbox that was t0. */
  ghost predicate CopyState(t: Table, t0: Table, set_: string, isUid: bool, base: nat -> string, n: nat, now: Table,
                            srcUids: seq<nat>, dstUids: seq<nat>)
  {
    var us := UidList(t);
    && n <= |us| && (forall u :: u in us ==> u in t)
    && srcUids == PickedUids(set_, isUid, us, n) && (forall u :: u in srcUids ==> u in t)
    && |dstUids| == |srcUids| && (forall i :: 0 <= i < |dstUids| ==> dstUids[i] == Next(t0) + i)
    && now == AddCopies(t0, Next(t0), CopiesOf(t, srcUids, base))
  }

  /** COPY reached the end, or stopped before an addressed message whose file is empty. */
  ghost predicate CopyResult(t: Table, t0: Table, set_: string, isUid: bool, base: nat -> string, ok: bool, n: nat,
                             now: Table, srcUids: seq<nat>, dstUids: seq<nat>)
  {
    && CopyState(t, t0, set_, isUid, base, n, now, srcUids, dstUids)
    && NoneEmpty(t, set_, isUid, n)
    && if ok then n == |UidList(t)|
       else n < |UidList(t)| && Addressed(set_, isUid, UidList(t), n) && t[UidList(t)[n]].bytes == ""
  }

  /**
   A COPY that reached the end: two UID lists of equal length, the source's in listing order and the new
   ones consecutive from Next on; each copy has the flags and bytes of its source and nothing else changed.
   */
  lemma CopyMeaning(t: Table, t0: Table, set_: string, isUid: bool, base: nat -> string, n: nat,
                    now: Table, srcUids: seq<nat>, dstUids: seq<nat>)
    requires CopyResult(t, t0, set_, isUid, base, true, n, now, srcUids, dstUids)
    ensures srcUids == PickedUids(set_, isUid, UidList(t), |UidList(t)|) && |dstUids| == |srcUids|
    ensures forall i :: 0 <= i < |dstUids| ==>
              && dstUids[i] == Next(t0) + i && dstUids[i] !in t0 && dstUids[i] in now && srcUids[i] in t
              && now[dstUids[i]] == Message(base(i), t[srcUids[i]].flags, t[srcUids[i]].bytes)
    ensures forall u :: u in t0 ==> u in now && now[u] == t0[u]
    ensures forall u :: u in now ==> u in t0 || u in dstUids
  {
    hide Next, PickedUids, UidList, AddCopies, Addressed, Appended, NoneEmpty;
    CopyIs(t, t0, set_, isUid, base, true, n, now, srcUids, dstUids);
    hide CopyResult;
    AppendedMeaning(t0, CopiesOf(t, srcUids, base), now, dstUids);
  }

  /** What a COPY did, in the functions it is made of. */
  lemma CopyIs(t: Table, t0: Table, set_: string, isUid: bool, base: nat -> string, ok: bool, n: nat, now: Table,
               srcUids: seq<nat>, dstUids: seq<nat>)
    requires CopyResult(t, t0, set_, isUid, base, ok, n, now, srcUids, dstUids)
    ensures n <= |UidList(t)| && (ok ==> n == |UidList(t)|) && srcUids == PickedUids(set_, isUid, UidList(t), n)
    ensures (forall u :: u in srcUids ==> u in t) && |dstUids| == |srcUids|
    ensures forall i :: 0 <= i < |dstUids| ==> dstUids[i] == Next(t0) + i
    ensures Appended(t0, Next(t0), CopiesOf(t, srcUids, base), now)
  {
    CopyParts(t, t0, set_, isUid, base, ok, n, now, srcUids, dstUids);
    hide Next, PickedUids, UidList, AddCopies, Appended, CopyResult;
    AddCopiesSpec(t0, Next(t0), CopiesOf(t, srcUids, base));
  }

  lemma CopyParts(t: Table, t0: Table, set_: string, isUid: bool, base: nat -> string, ok: bool, n: nat, now: Table,
                  srcUids: seq<nat>, dstUids: seq<nat>)
    requires CopyResult(t, t0, set_, isUid, base, ok, n, now, srcUids, dstUids)
    ensures n <= |UidList(t)| && (ok ==> n == |UidList(t)|) && srcUids == PickedUids(set_, isUid, UidList(t), n)
    ensures (forall u :: u in srcUids ==> u in t) && |dstUids| == |srcUids|
    ensures forall i :: 0 <= i < |dstUids| ==> dstUids[i] == Next(t0) + i
    ensures now == AddCopies(t0, Next(t0), CopiesOf(t, srcUids, base))
  {
    hide Next, PickedUids, UidList, AddCopies, Addressed, NoneEmpty, CopiesOf;
  }

  lemma AppendedMeaning(t0: Table, msgs: seq<Message>, now: Table, dstUids: seq<nat>)
    requires Appended(t0, Next(t0), msgs, now)
    requires |dstUids| == |msgs| && forall i :: 0 <= i < |dstUids| ==> dstUids[i] == Next(t0) + i
    ensures forall i :: 0 <= i < |dstUids| ==> dstUids[i] !in t0 && dstUids[i] in now && now[dstUids[i]] == msgs[i]
    ensures forall u :: u in t0 ==> u in now && now[u] == t0[u]
    ensures forall u :: u in now ==> u in t0 || u in dstUids
  {
    forall u | u in t0 ensures u < Next(t0) {
      BelowNext(t0, u);
    }
    hide Next;
    var next := Next(t0);
    forall i | 0 <= i < |dstUids| ensures dstUids[i] !in t0 && dstUids[i] in now && now[dstUids[i]] == msgs[i] {
      var u := dstUids[i];
      assert u == next + i && next <= u < next + |msgs|;
      assert now[u] == msgs[u - next];
    }
    forall u | u in now && u !in t0 ensures u in dstUids {
      assert dstUids[u - next] == u;
    }
  }

  lemma CopyStart(t: Table, t0: Table, set_: string, isUid: bool, base: nat -> string)
    ensures CopyState(t, t0, set_, isUid, base, 0, t0, [], [])
  {
    UidListSpec(t);
  }

  lemma CopySkip(t: Table, t0: Table, set_: string, isUid: bool, base: nat -> string, n: nat, now: Table,
                 srcUids: seq<nat>, dstUids: seq<nat>)
    requires CopyState(t, t0, set_, isUid, base, n, now, srcUids, dstUids) && n < |UidList(t)|
    requires !Addressed(set_, isUid, UidList(t), n)
    ensures CopyState(t, t0, set_, isUid, base, n + 1, now, srcUids, dstUids)
  {
    hide Addressed;
    assert srcUids + [] == srcUids;
  }

  lemma CopyNext(t: Table, t0: Table, set_: string, isUid: bool, base: nat -> string, n: nat, now: Table,
                 srcUids: seq<nat>, dstUids: seq<nat>)
    requires CopyState(t, t0, set_, isUid, base, n, now, srcUids, dstUids) && n < |UidList(t)|
    requires Addressed(set_, isUid, UidList(t), n)
    ensures var u := UidList(t)[n];
            && u in t
            && CopyState(t, t0, set_, isUid, base, n + 1,
                         now[Next(now) := Message(base(|srcUids|), t[u].flags, t[u].bytes)],
                         srcUids + [u], dstUids + [Next(now)])
  {
    hide Addressed, Next;
    hide PickedUids, UidList, AddCopies;
    var us := UidList(t);
    var u := us[n];
    var msgs, k := CopiesOf(t, srcUids, base), |srcUids|;
    assert u in us && u in t;
    var m := Message(base(k), t[u].flags, t[u].bytes);
    NextAfterCopies(t0, msgs);
    OneMoreCopy(t0, Next(t0), msgs, m);
    OnePicked(set_, isUid, us, n);
    CopiesSnoc(t, srcUids, u, base);
  }

  lemma NextAfterCopies(t: Table, msgs: seq<Message>)
    ensures Next(AddCopies(t, Next(t), msgs)) == Next(t) + |msgs|
  {
    hide Next, AddCopies;
    AddCopiesSpec(t, Next(t), msgs);
  }

  lemma CopiesSnoc(t: Table, uids: seq<nat>, u: nat, base: nat -> string)
    requires u in t && forall v :: v in uids ==> v in t
    ensures CopiesOf(t, uids + [u], base) == CopiesOf(t, uids, base) + [Message(base(|uids|), t[u].flags, t[u].bytes)]
  {
  }

  lemma OneMoreCopy(t: Table, next: nat, msgs: seq<Message>, m: Message)
    ensures AddCopies(t, next, msgs + [m]) == AddCopies(t, next, msgs)[next + |msgs| := m]
  {
    assert (msgs + [m])[..|msgs|] == msgs;
  }

  lemma OnePicked(set_: string, isUid: bool, us: seq<nat>, n: nat)
    requires n < |us|
    ensures PickedUids(set_, isUid, us, n + 1) ==
            PickedUids(set_, isUid, us, n) + (if Addressed(set_, isUid, us, n) then [us[n]] else [])
  {
  }

  // ---- UIDVALIDITY ----

  /** fscanf("%d"): blanks, a sign and digits. */
  function ScanInt(text: string): Option<int> {
    var s := TrimLeft(text);
    var digits := if s != "" && IsSign(s[0]) then s[1..] else s;
    if digits == "" || !IsDigit(digits[0]) then None
    else Some(Signed(LeadingValue(digits, 0), s[0] == '-'))
  }

  /** The usable value stored in a mailbox, if there is one. */
  function Validity(d: Dir): Option<int> {
    if UIDVALIDITY_FILE !in d then None
    else match ScanInt(d[UIDVALIDITY_FILE])
      case None => None
      case Some(v) => if v > 0 then Some(v) else None
  }

  /** A mailbox that has a UIDVALIDITY keeps it. */
  predicate KeepsValidity(d: Dir, d': Dir) {
    Validity(d).Some? ==> Validity(d') == Validity(d)
  }

  lemma OthersKeepValidity(d: Dir, d': Dir)
    requires Others(d) == Others(d')
    ensures KeepsValidity(d, d')
  {
    NonMessageEntries();
    hide WellFormed, ScanInt;
    assert UIDVALIDITY_FILE in d ==>
             UIDVALIDITY_FILE in Others(d) && Others(d)[UIDVALIDITY_FILE] == d[UIDVALIDITY_FILE];
    assert UIDVALIDITY_FILE in Others(d') ==> Others(d')[UIDVALIDITY_FILE] == d'[UIDVALIDITY_FILE];
  }

  lemma ScanPrinted(v: nat)
    ensures ScanInt(LongText(v) + "\n") == Some(v)
  {
    var s := Decimal(v) + "\n";
    assert IsDigit(s[0]) && TrimLeft(s) == s;
    LeadingValueOfDecimal(v, "\n");
  }

  /** A stored UIDVALIDITY is usable exactly when it is positive; blanks before and text behind it do not matter. */
  lemma ValidityAsWritten(d: Dir, before: string, n: nat, after: string)
    requires UIDVALIDITY_FILE in d && Blanks(before) && (after == "" || !IsDigit(after[0]))
    ensures d[UIDVALIDITY_FILE] == before + (Decimal(n) + after) ==> Validity(d) == if n > 0 then Some(n) else None
    ensures d[UIDVALIDITY_FILE] == before + ("-" + Decimal(n) + after) ==> Validity(d) == None
  {
    LeadingValueOfDecimal(n, after);
    var plain, negative := Decimal(n) + after, "-" + Decimal(n) + after;
    assert IsDigit(plain[0]) && negative[1..] == plain && negative[0] == '-';
    hide Decimal, LeadingValue;
    TrimLeftAround(before, plain);
    TrimLeftAround(before, negative);
    assert ScanInt(before + plain) == Some(n);
    assert ScanInt(before + negative) == Some(Signed(n, true));
  }

  class Mailbox {
    var dir: Dir

    ghost predicate Valid()
      reads this
    {
      Inv(dir)
    }

    constructor ()
      ensures Valid() && dir == map[]
    {
      dir := map[];
    }

    /** get_uidvalidity: the stored value, or the clock's, which is then stored; no message is touched. */
    method GetUidValidity(now: int) returns (v: int)
      requires Valid()
      modifies this
      ensures Valid() && View(dir) == old(View(dir))
      ensures v == if old(Validity(dir)).Some? then old(Validity(dir)).value else now
      ensures old(Validity(dir)).Some? ==> dir == old(dir)
      ensures now > 0 ==> Validity(dir) == Some(v)
      ensures KeepsValidity(old(dir), dir)
    {
      hide ParseUid, ParseFlags, FlagsBasename, MaildirFilename, WellFormed, View, Inv, ScanInt;
      if UIDVALIDITY_FILE in dir {
        var read := ScanInt(dir[UIDVALIDITY_FILE]);
        if read.Some? && read.value > 0 {
          return read.value;
        }
      }
      NonMessageEntries();
      WriteOther(dir, UIDVALIDITY_FILE, LongText(now) + "\n");
      dir := dir[UIDVALIDITY_FILE := LongText(now) + "\n"];
      if now > 0 {
        ScanPrinted(now);
      }
      v := now;
    }

    /** Writes one message under the next UID; no file that was there changes. */
    method WriteNew(base: string, f: Flags, bytes: string) returns (uid: nat)
      requires Valid() && UsableBase(base)
      modifies this
      ensures Valid() && Others(dir) == old(Others(dir))
      ensures uid == Next(old(View(dir))) && uid !in old(View(dir))
      ensures View(dir) == old(View(dir))[uid := Message(base, f, bytes)]
      ensures forall n :: n in old(dir) ==> n in dir && dir[n] == old(dir)[n]
    {
      hide ParseUid, ParseFlags, FlagsBasename, MaildirFilename, WellFormed;
      uid := NextUid(dir);
      var name := WriteFilename(base, uid, f);
      WriteMessage(dir, base, uid, f, bytes);
      dir := dir[name := bytes];
    }

    /**
     Local delivery (smtp.c), for every directory and every host the client gave: no flags, one above every UID
     in sight. A '/' makes the path lead out of the directory and the write fail; a ';' leaves a name behind
     that does not read back as written, and nothing mends that.
     */
    method Deliver(base: string, body: string) returns (uid: Option<nat>)
      modifies this
      ensures if '/' in base then uid == None && dir == old(dir)
              else
                && uid.Some? && Above(old(dir), uid.value)
                && dir == old(dir)[MaildirFilename(base, uid.value, NO_FLAGS) := body]
      ensures Valid() <==> old(Valid()) && ('/' in base || (base != "" && ';' !in base))
      ensures old(Valid()) && '/' !in base ==>
                && uid == Some(Next(old(View(dir)))) && uid.value !in old(View(dir))
                && MaildirFilename(base, uid.value, NO_FLAGS) !in old(dir)
      ensures old(Valid()) && UsableBase(base) ==>
                && Others(dir) == old(Others(dir))
                && View(dir) == old(View(dir))[uid.value := Message(base, NO_FLAGS, body)]
    {
      hide ParseUid, ParseFlags, FlagsBasename, MaildirFilename, WellFormed, Inv, View, Others, Next, Above;
      if '/' in base {
        return None;
      }
      var u := NextUid(dir);
      var name := WriteFilename(base, u, NO_FLAGS);
      if !Inv(dir) {
        StaysBroken(dir, name, body);
      } else {
        WriteKeepsInvExactly(dir, base, u, NO_FLAGS, body);
        if UsableBase(base) {
          WriteMessage(dir, base, u, NO_FLAGS, body);
        }
      }
      dir := dir[name := body];
      uid := Some(u);
    }

    /** handle_append from the flag list on; None is a BAD reply. */
    method Append(base: string, rest: string, body: string) returns (uid: Option<nat>)
      requires Valid() && UsableBase(base)
      modifies this
      ensures Valid() && Others(dir) == old(Others(dir))
      ensures uid.None? <==> rest != "" && rest[0] == '(' && ')' !in rest
      ensures uid.None? ==> dir == old(dir)
      ensures uid.Some? ==> uid.value == Next(old(View(dir))) && uid.value !in old(View(dir))
      ensures uid.Some? ==> View(dir) == old(View(dir))[uid.value := Message(base, AppendFlags(rest), body)]
      ensures forall n :: n in old(dir) ==> n in dir && dir[n] == old(dir)[n]
    {
      hide ParseUid, ParseFlags, FlagsBasename, MaildirFilename, WellFormed;
      var flags := NO_FLAGS;
      FindCharNone(rest, ')');
      FindSpec(rest, ")");
      if rest != "" && rest[0] == '(' {
        var end := SvFind(rest, ")");
        if end.None? {
          return None;
        }
        assert rest[end.value..end.value + 1] == ")";
        flags := ParseFlagList(rest[1..end.value], NO_FLAGS, true);
      }
      var u := WriteNew(base, flags, body);
      uid := Some(u);
    }

    /** The listing and the position of the message a STORE addresses, |names| if there is none. */
    method Locate(number: int, isUid: bool) returns (names: seq<string>, i: nat)
      requires Valid()
      ensures NamesOf(names, dir) && Uids(names) == UidList(View(dir)) && i <= |names|
      ensures StoreIndex(number, isUid, Uids(names), 0) == if i < |names| then Some(i) else None
    {
      hide ParseUid, ParseFlags, FlagsBasename, MaildirFilename, WellFormed;
      names := ListMessages(dir);
      ghost var us := Uids(names);
      i := 0;
      while i < |names|
        invariant 0 <= i <= |names|
        invariant StoreIndex(number, isUid, us, i) == StoreIndex(number, isUid, us, 0)
      {
        var uid := ReadUid(names[i]);
        if (if isUid then uid == number else i + 1 == number) {
          return;
        }
        i := i + 1;
      }
    }

    /** Gives one message other flags by renaming its file; no other file is touched. */
    method Relabel(name: string, f: Flags) returns (newName: string)
      requires Valid() && name in dir && WellFormed(name)
      modifies this
      ensures Valid() && Others(dir) == old(Others(dir))
      ensures newName in dir && WellFormed(newName) && ParseUid(newName) == ParseUid(name) && ParseFlags(newName) == f
      ensures ParseUid(name) in old(View(dir))
      ensures old(View(dir))[ParseUid(name)] == MessageOf(name, old(dir)[name])
      ensures View(dir) == old(View(dir))[ParseUid(name) := old(View(dir))[ParseUid(name)].(flags := f)]
      ensures dir == (old(dir) - {name})[newName := old(dir)[name]] && (newName == name || newName !in old(dir))
    {
      hide ParseUid, ParseFlags, FlagsBasename, MaildirFilename, WellFormed;
      ViewHas(dir, name);
      RenameMessage(dir, name, f);
      var uid := ReadUid(name);
      newName := WriteFilename(FlagsBasename(name), uid, f);
      if name != newName {
        dir := (dir - {name})[newName := dir[name]];
      }
      assert dir == (old(dir) - {name})[newName := old(dir)[name]];
    }

    /** handle_store_ex; None is "message not found". */
    method Store(args: string, isUid: bool) returns (echo: Option<Echo>)
      requires Valid()
      modifies this
      ensures Valid() && Others(dir) == old(Others(dir)) && (echo == None ==> dir == old(dir))
      ensures StoreResult(old(View(dir)), args, isUid, View(dir), echo)
    {
      hide ParseUid, ParseFlags, FlagsBasename, MaildirFilename, WellFormed;
      hide StoreArgs, StoreIndex, ApplyList, StripParens, FlagsToImap, StoreResult, UidList, Inv, View, Others;
      var number, op, list := ReadStoreArgs(args);
      var names, i := Locate(number, isUid);
      ghost var t := View(dir);
      if i == |names| {
        NotFound(t, args, isUid);
        return None;
      }
      var name := names[i];
      assert name in dir && WellFormed(name) && Uids(names)[i] == ParseUid(name);
      var was := ReadFlags(name);
      var target := if op != "" && op[0] != '+' && op[0] != '-' then NO_FLAGS else was;
      target := ParseFlagList(StripParens(list), target, !(op != "" && op[0] == '-'));
      var newName := Relabel(name, target);
      var stored := ReadFlags(newName);
      var text := WriteFlags(stored);
      var uid := ReadUid(newName);
      echo := Some(Echo(i + 1, uid, text));
      Found(t, args, isUid, i, target, View(dir), echo.value);
    }

    /** handle_copy_ex into dst, which may be this very mailbox. An empty file stops it. */
    method Copy(dst: Mailbox, set_: string, isUid: bool, base: nat -> string)
      returns (ok: bool, srcUids: seq<nat>, dstUids: seq<nat>, ghost done: nat)
      requires Valid() && dst.Valid() && forall k: nat :: UsableBase(base(k))
      modifies dst
      ensures dst.Valid() && Others(dst.dir) == old(Others(dst.dir))
      ensures CopyResult(old(View(dir)), old(View(dst.dir)), set_, isUid, base, ok, done, View(dst.dir),
                         srcUids, dstUids)
      ensures forall n :: n in old(dst.dir) ==> n in dst.dir && dst.dir[n] == old(dst.dir)[n]
    {
      hide ParseUid, ParseFlags, FlagsBasename, MaildirFilename, WellFormed, IsMessage;
      hide ParseSeqSet, Inv, View, Others, UidList, Addressed, CopyState, UsableBase;
      hide NoneEmpty;
      var names := ListMessages(dir);
      ghost var d0, t, t0 := dir, View(dir), View(dst.dir);
      var ranges := ParseAddress(set_, isUid, names);
      srcUids, dstUids := [], [];
      var i := 0;
      CopyStart(t, t0, set_, isUid, base);
      NoneYet(t, set_, isUid);
      while i < |names|
        invariant dst.Valid() && Others(dst.dir) == old(Others(dst.dir))
        invariant 0 <= i <= |names|
        invariant forall n :: n in old(dst.dir) ==> n in dst.dir && dst.dir[n] == old(dst.dir)[n]
        invariant CopyState(t, t0, set_, isUid, base, i, View(dst.dir), srcUids, dstUids)
        invariant NoneEmpty(t, set_, isUid, i)
      {
        assert names[i] in d0 && WellFormed(names[i]) && Uids(names)[i] == ParseUid(names[i]);
        assert names[i] in dir && dir[names[i]] == d0[names[i]];
        var match_ := IsAddressed(set_, isUid, names, i, ranges);
        if match_ {
          var bytes := dir[names[i]];
          ViewHas(d0, names[i]);
          if bytes == "" {
            return false, srcUids, dstUids, i;
          }
          CopyNext(t, t0, set_, isUid, base, i, View(dst.dir), srcUids, dstUids);
          var f := ReadFlags(names[i]);
          var srcUid := ReadUid(names[i]);
          var dstUid := dst.WriteNew(base(|srcUids|), f, bytes);
          srcUids, dstUids := srcUids + [srcUid], dstUids + [dstUid];
        } else {
          CopySkip(t, t0, set_, isUid, base, i, View(dst.dir), srcUids, dstUids);
        }
        NoneEmptyStep(t, set_, isUid, i);
        i := i + 1;
      }
      ok, done := true, i;
    }

    /** handle_select: EXISTS, the unseen count sent as RECENT, and the announced UIDNEXT. */
    method Select() returns (count: nat, unseen: nat, uidNext: nat)
      requires Valid()
      ensures count == |UidList(View(dir))| && uidNext == count + 1
      ensures unseen == |set u | u in View(dir) && !View(dir)[u].flags.seen|
    {
      hide ParseUid, ParseFlags, FlagsBasename, MaildirFilename, WellFormed, IsMessage;
      hide UidsAmong, View, Inv, Sorted;
      var entries := ReadDir(dir);
      NoEntries(dir, entries);
      count, unseen := 0, 0;
      var i := 0;
      while i < |entries|
        invariant 0 <= i <= |entries|
        invariant count == |UidsAmong(dir, entries, i, false)| && unseen == |UidsAmong(dir, entries, i, true)|
      {
        var name := entries[i];
        assert name in entries;
        MessageIffWellFormed(dir, name);
        MessageTest(name);
        OneMoreEntry(dir, entries, i, false);
        OneMoreEntry(dir, entries, i, true);
        var isMessage := SvFind(name, ".eml");
        if isMessage.Some? {
          count := count + 1;
          var f := ReadFlags(name);
          if !f.seen {
            unseen := unseen + 1;
          }
        }
        i := i + 1;
      }
      AllEntries(dir, entries);
      SortedLength(View(dir).Keys);
      uidNext := count + 1;
    }

    /** handle_close: every \\Deleted message goes, silently. */
    method Close()
      requires Valid()
      modifies this
      ensures Valid() && Others(dir) == old(Others(dir))
      ensures View(dir) == old(View(dir)) - Doomed(old(View(dir)), None)
    {
      hide ParseUid, ParseFlags, FlagsBasename, MaildirFilename, WellFormed, IsMessage;
      var entries := ReadDir(dir);
      ghost var d0, t := dir, View(dir);
      ghost var dead: set<string> := {};
      var i := 0;
      while i < |entries|
        invariant 0 <= i <= |entries|
        invariant dir == d0 - dead
        invariant forall n :: n in dead <==> n in entries[..i] && n in d0 && WellFormed(n) && ParseFlags(n).deleted
      {
        var name := entries[i];
        assert name in entries;
        assert entries[..i + 1] == entries[..i] + [name];
        MessageIffWellFormed(d0, name);
        MessageTest(name);
        var isMessage := SvFind(name, ".eml");
        if isMessage.Some? {
          var f := ReadFlags(name);
          if f.deleted {
            dir := dir - {name};
            dead := dead + {name};
          }
        }
        i := i + 1;
      }
      assert entries[..i] == entries;
      forall n | n in d0 && WellFormed(n) ensures n in dead <==> ParseUid(n) in Doomed(t, None) {
        ViewHas(d0, n);
      }
      RemoveMessages(d0, dead, Doomed(t, None));
    }

    /** expunge_impl: the numbers of the "* k EXPUNGE" lines, for EXPUNGE (None) and UID EXPUNGE. */
    method Expunge(uidSet: Option<string>) returns (numbers: seq<nat>)
      requires Valid()
      modifies this
      ensures Valid() && Others(dir) == old(Others(dir))
      ensures var t, us := old(View(dir)), UidList(old(View(dir)));
              View(dir) == t - Doomed(t, ExpungeRanges(uidSet, us))
      ensures Replay(UidList(old(View(dir))), numbers) == Some(UidList(View(dir)))
      ensures |numbers| == |UidList(old(View(dir)))| - |UidList(View(dir))|
    {
      hide ParseUid, ParseFlags, FlagsBasename, MaildirFilename, WellFormed, IsMessage;
      hide ParseSeqSet, Doomed, Progress, Replay, Inv, View, Others, UidList, DeadAmong;
      var names := ListMessages(dir);
      ghost var d0, t, us := dir, View(dir), Uids(names);
      var max := 0;
      if |names| > 0 {
        max := ReadUid(names[|names| - 1]);
      }
      var ranges := [];
      if uidSet.Some? {
        ranges := ParseSet(uidSet.value, max);
      }
      ghost var doomed := Doomed(t, ExpungeRanges(uidSet, us));
      numbers := [];
      var seqno := 1;
      var i := 0;
      ProgressStart(us, doomed);
      NoneDead(d0, names, doomed);
      while i < |names|
        invariant 0 <= i <= |names| && dir == d0 - DeadAmong(names, i, doomed)
        invariant Progress(us, doomed, i, numbers, seqno)
      {
        ProgressStep(us, doomed, i, numbers, seqno);
        OneMoreDead(d0, names, i, doomed);
        var remove := IsDoomed(names[i], uidSet, ranges, d0);
        if remove {
          dir := dir - {names[i]};
          numbers := numbers + [seqno];
        } else {
          seqno := seqno + 1;
        }
        i := i + 1;
      }
      ExpungedAll(d0, names, DeadAmong(names, i, doomed), doomed);
      ProgressEnd(t, doomed, numbers, seqno);
    }

    /**
     handle_fetch_ex: BODY without PEEK marks each addressed message seen before it is sent. An empty
     file stops the command at that message, after it was marked.
     */
    method Fetch(set_: string, isUid: bool, items: FetchItems)
      returns (ok: bool, replies: seq<Reply>, ghost done: nat)
      requires Valid()
      modifies this
      ensures Valid() && Others(dir) == old(Others(dir))
      ensures FetchResult(old(View(dir)), set_, isUid, items, ok, done, View(dir), replies)
    {
      hide ParseUid, ParseFlags, FlagsBasename, MaildirFilename, WellFormed, IsMessage;
      hide ParseSeqSet, Inv, View, Others, UidList, Addressed, FetchState, NoneEmpty;
      var names := ListMessages(dir);
      ghost var t := View(dir);
      UidListSpec(t);
      var ranges := ParseAddress(set_, isUid, names);
      replies := [];
      var i := 0;
      FetchStart(t, set_, isUid, items);
      NoneYet(t, set_, isUid);
      while i < |names|
        invariant Valid() && Others(dir) == old(Others(dir))
        invariant 0 <= i <= |names| && NamesOf(names, dir) && Uids(names) == UidList(t)
        invariant FetchState(t, set_, isUid, items, i, View(dir), replies)
        invariant items.Reads() ==> NoneEmpty(t, set_, isUid, i)
      {
        var match_ := IsAddressed(set_, isUid, names, i, ranges);
        if match_ {
          FetchNext(t, set_, isUid, items, i, View(dir), replies);
          var reply;
          names, reply := FetchMessage(names, i, items);
          if (items.body || items.size) && reply.bytes == "" {
            return false, replies, i;
          }
          replies := replies + [reply];
        } else {
          FetchSkip(t, set_, isUid, items, i, View(dir), replies);
        }
        if items.Reads() {
          NoneEmptyStep(t, set_, isUid, i);
        }
        i := i + 1;
      }
      ok, done := true, i;
    }

    /** One addressed message: marked if it has to be and is not, then read. */
    method FetchMessage(names: seq<string>, i: nat, items: FetchItems) returns (names': seq<string>, reply: Reply)
      requires Valid() && i < |names| && NamesOf(names, dir) && Ascending(Uids(names))
      modifies this
      ensures Valid() && Others(dir) == old(Others(dir))
      ensures NamesOf(names', dir) && Uids(names') == Uids(names)
      ensures var u, t := Uids(names)[i], old(View(dir));
              && u in t && reply == Reply(i + 1, u, SentFlags(t[u], items), t[u].bytes, Part(items, t[u].bytes))
              && View(dir) == if items.Marks() then t[u := t[u].(flags := t[u].flags.(seen := true))] else t
    {
      hide ParseUid, ParseFlags, FlagsBasename, MaildirFilename, WellFormed, IsMessage;
      hide Inv, View, Others;
      names' := names;
      var name := names[i];
      ghost var t := View(dir);
      ViewHas(dir, name);
      var flags := ReadFlags(name);
      var uid := ReadUid(name);
      var bytes := dir[name];
      if items.Marks() && !flags.seen {
        ghost var d := dir;
        var newName := Relabel(name, flags.(seen := true));
        RelabelledNames(names, i, d, dir, newName);
        names' := names[i := newName];
        flags := flags.(seen := true);
      } else {
        SameRow(t, uid, t[uid].(flags := SentFlags(t[uid], items)));
      }
      var part := None;
      if items.body {
        var data := CutSection(items.section, bytes);
        part := Some(data);
      }
      reply := Reply(i + 1, uid, flags, bytes, part);
    }
  }

  /** The other listed files are still there after one was renamed. */
  lemma RelabelledNames(names: seq<string>, i: nat, d: Dir, d': Dir, newName: string)
    requires i < |names| && NamesOf(names, d) && Ascending(Uids(names))
    requires newName in d' && WellFormed(newName) && ParseUid(newName) == ParseUid(names[i])
    requires d' == (d - {names[i]})[newName := d[names[i]]]
    ensures NamesOf(names[i := newName], d') && Uids(names[i := newName]) == Uids(names)
  {
    hide ParseUid, WellFormed;
    var us := Uids(names);
    forall j | 0 <= j < |names| && j != i ensures names[j] in d' {
      assert us[j] != us[i];
    }
  }

  method ParseAddress(set_: string, isUid: bool, names: seq<string>) returns (ranges: seq<Range>)
    ensures ranges == ParseSeqSet(set_, SetMax(isUid, Uids(names)))
  {
    hide ParseUid, ParseSeqSet;
    var max := |names|;
    if isUid {
      max := 0;
      if |names| > 0 {
        max := ReadUid(names[|names| - 1]);
      }
    }
    ranges := ParseSet(set_, max);
  }

  method IsAddressed(set_: string, isUid: bool, names: seq<string>, i: nat, ranges: seq<Range>) returns (r: bool)
    requires i < |names| && ranges == ParseSeqSet(set_, SetMax(isUid, Uids(names)))
    ensures r <==> Addressed(set_, isUid, Uids(names), i)
  {
    hide ParseUid, ParseSeqSet;
    var k := i + 1;
    if isUid {
      k := ReadUid(names[i]);
    }
    r := SeqInRanges(ranges, k);
  }

  /** The UIDs of the messages, or of the unseen ones, among the first n entries. */
  ghost function UidsAmong(d: Dir, entries: seq<string>, n: nat, unseen: bool): set<nat>
    requires n <= |entries|
  {
    set i | 0 <= i < n && entries[i] in d && WellFormed(entries[i]) && (unseen ==> !ParseFlags(entries[i]).seen)
      :: ParseUid(entries[i])
  }

  lemma NoEntries(d: Dir, entries: seq<string>)
    ensures UidsAmong(d, entries, 0, false) == {} && UidsAmong(d, entries, 0, true) == {}
  {
  }

  lemma OneMoreEntry(d: Dir, entries: seq<string>, i: nat, unseen: bool)
    requires Inv(d) && Enumerates(entries, d) && i < |entries|
    ensures |UidsAmong(d, entries, i + 1, unseen)| == |UidsAmong(d, entries, i, unseen)| +
              if entries[i] in d && WellFormed(entries[i]) && (unseen ==> !ParseFlags(entries[i]).seen) then 1 else 0
  {
    hide ParseUid, ParseFlags, WellFormed, Inv, Enumerates;
    var n := entries[i];
    MoreUids(d, entries, i, unseen);
    if n in d && WellFormed(n) && (unseen ==> !ParseFlags(n).seen) {
      NewUid(d, entries, i, unseen);
    }
  }

  lemma MoreUids(d: Dir, entries: seq<string>, i: nat, unseen: bool)
    requires i < |entries|
    ensures var n := entries[i];
            UidsAmong(d, entries, i + 1, unseen) == UidsAmong(d, entries, i, unseen) +
              if n in d && WellFormed(n) && (unseen ==> !ParseFlags(n).seen) then {ParseUid(n)} else {}
  {
    hide ParseUid, ParseFlags, WellFormed;
  }

  lemma NewUid(d: Dir, entries: seq<string>, i: nat, unseen: bool)
    requires Inv(d) && Enumerates(entries, d) && i < |entries| && entries[i] in d && WellFormed(entries[i])
    ensures ParseUid(entries[i]) !in UidsAmong(d, entries, i, unseen)
  {
    hide ParseUid, ParseFlags, WellFormed;
    forall k | 0 <= k < i && entries[k] in d && WellFormed(entries[k])
      ensures ParseUid(entries[k]) != ParseUid(entries[i])
    {
      assert entries[k] != entries[i];
    }
  }

  lemma AllEntries(d: Dir, entries: seq<string>)
    requires Inv(d) && Enumerates(entries, d)
    ensures UidsAmong(d, entries, |entries|, false) == View(d).Keys
    ensures UidsAmong(d, entries, |entries|, true) == set u | u in View(d) && !View(d)[u].flags.seen
  {
    hide ParseUid, ParseFlags, FlagsBasename, MaildirFilename, WellFormed;
    forall u | u in View(d)
      ensures u in UidsAmong(d, entries, |entries|, false)
      ensures u in UidsAmong(d, entries, |entries|, true) <==> !View(d)[u].flags.seen
    {
      ViewName(d, u);
      var i :| 0 <= i < |entries| && entries[i] == NameFor(u, View(d)[u]);
      forall j | 0 <= j < |entries| && entries[j] in d && WellFormed(entries[j]) && ParseUid(entries[j]) == u
        ensures entries[j] == entries[i] {
      }
    }
    forall unseen, u | u in UidsAmong(d, entries, |entries|, unseen) ensures u in View(d) {
      var i :| 0 <= i < |entries| && entries[i] in d && WellFormed(entries[i]) && ParseUid(entries[i]) == u;
      ViewHas(d, entries[i]);
    }
  }

  lemma {:induction false} SortedLength(s: set<nat>)
    ensures |Sorted(s)| == |s|
  {
    if s != {} {
      SortedLength(s - {Top(s)});
    }
  }

  ghost function DeadAmong(names: seq<string>, n: nat, doomed: set<nat>): set<string>
    requires n <= |names|
  {
    if n == 0 then {}
    else DeadAmong(names, n - 1, doomed) + (if ParseUid(names[n - 1]) in doomed then {names[n - 1]} else {})
  }

  lemma NoneDead(d: Dir, names: seq<string>, doomed: set<nat>)
    ensures d == d - DeadAmong(names, 0, doomed)
  {
  }

  lemma OneMoreDead(d: Dir, names: seq<string>, i: nat, doomed: set<nat>)
    requires i < |names|
    ensures d - DeadAmong(names, i + 1, doomed) ==
            d - DeadAmong(names, i, doomed) - (if ParseUid(names[i]) in doomed then {names[i]} else {})
  {
    hide ParseUid;
  }

  lemma {:induction false} DeadAmongSpec(names: seq<string>, n: nat, doomed: set<nat>)
    requires n <= |names|
    ensures forall x :: x in DeadAmong(names, n, doomed) <==> x in names[..n] && ParseUid(x) in doomed
  {
    hide ParseUid;
    if n > 0 {
      DeadAmongSpec(names, n - 1, doomed);
      assert names[..n] == names[..n - 1] + [names[n - 1]];
    }
  }

  /** The test inside the loop of expunge_impl. */
  method IsDoomed(name: string, uidSet: Option<string>, ranges: seq<Range>, ghost d: Dir) returns (r: bool)
    requires Inv(d) && name in d && WellFormed(name)
    ensures r <==> ParseUid(name) in Doomed(View(d), if uidSet.Some? then Some(ranges) else None)
  {
    hide ParseUid, ParseFlags, FlagsBasename, MaildirFilename, WellFormed, IsMessage;
    ViewHas(d, name);
    var f := ReadFlags(name);
    var inSet := true;
    if uidSet.Some? {
      var uid := ReadUid(name);
      inSet := SeqInRanges(ranges, uid);
    }
    r := f.deleted && inSet;
  }

  function ExpungeRanges(uidSet: Option<string>, us: seq<nat>): Option<seq<Range>> {
    match uidSet
    case None => None
    case Some(text) => Some(ParseSeqSet(text, SetMax(true, us)))
  }

  lemma ExpungedAll(d: Dir, names: seq<string>, dead: set<string>, doomed: set<nat>)
    requires Inv(d) && NamesOf(names, d) && Uids(names) == UidList(View(d))
    requires dead == DeadAmong(names, |names|, doomed)
    ensures Inv(d - dead) && View(d - dead) == View(d) - doomed && Others(d - dead) == Others(d)
  {
    hide ParseUid, ParseFlags, FlagsBasename, MaildirFilename, WellFormed, IsMessage;
    UidListSpec(View(d));
    DeadAmongSpec(names, |names|, doomed);
    assert names[..|names|] == names;
    forall n | n in d && WellFormed(n) ensures n in names {
      ViewHas(d, n);
      assert ParseUid(n) in Uids(names);
      var i :| 0 <= i < |names| && Uids(names)[i] == ParseUid(n);
      assert names[i] in d && WellFormed(names[i]);
    }
    RemoveMessages(d, dead, doomed);
  }

  /** The flags of an APPEND: those of a parenthesised list, else none. */
  function AppendFlags(rest: string): Flags {
    if rest != "" && rest[0] == '(' && Find(rest, ")").Some? && 1 <= Find(rest, ")").value <= |rest|
    then ApplyList(rest[1..Find(rest, ")").value], NO_FLAGS, true)
    else NO_FLAGS
  }

  method ReadStoreArgs(args: string) returns (number: int, op: string, list: string)
    ensures (number, op, list) == StoreArgs(args)
  {
    var trimmed := SvTrim(args);
    var first, rest := SvSplitDelim(trimmed, ' ');
    first := SvTrim(first);
    var long, _ := SvToLong(first);
    number := ToInt32(long);
    rest := SvTrim(rest);
    op, list := SvSplitDelim(rest, ' ');
    op := SvTrim(op);
    list := SvTrim(list);
  }

  /** "seq op (flags)". */
  function StoreArgs(args: string): (int, string, string) {
    var (first, rest) := Split(Trim(args), ' ');
    var (op, list) := Split(Trim(rest), ' ');
    (IntOf(Trim(first)), Trim(op), Trim(list))
  }
}
