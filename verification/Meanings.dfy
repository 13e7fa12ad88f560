/** imap.c: what STORE, FETCH and COPY mean, said with the numbers and names the client wrote. */
module Meanings {
  import opened Views
  import opened Decimals
  import opened Maildir
  import opened ImapFlags
  import opened SeqSets
  import opened Directory
  import opened Listings
  import opened Mailboxes
  import Expunges
  import HeaderFilter
  import TempAlloc

  /** The UIDs of a mailbox in a reachable state. */
  predicate Positive(t: Table) {
    forall u :: u in t ==> u >= 1
  }

  lemma LiveUids(d: Dir)
    requires Inv(d)
    ensures Positive(View(d))
  {
    hide View, Inv;
    forall u | u in View(d) ensures u >= 1 {
      ViewName(d, u);
    }
  }

  // ---- which messages a set names ----

  /** What a client calls the k-th message: its number, or its UID. */
  function NumberFor(isUid: bool, us: seq<nat>, k: nat): nat
    requires 1 <= k <= |us|
  {
    if isUid then us[k - 1] else k
  }

  /** The set names the k-th message, "*" being the last one; numbers are cut down to int. */
  predicate Selects(items: seq<Item>, isUid: bool, us: seq<nat>, k: nat)
    requires 1 <= k <= |us|
  {
    InNarrowSet(items, NumberFor(isUid, us, k), NumberFor(isUid, us, |us|))
  }

  /** For sets of ints that is the meaning of the set as written. */
  lemma NamedAsWritten(items: seq<Item>, isUid: bool, us: seq<nat>, k: nat)
    requires 1 <= k <= |us| && forall x :: x in items ==> ItemFits(x)
    ensures Selects(items, isUid, us, k) <==> InSet(items, NumberFor(isUid, us, k), NumberFor(isUid, us, |us|))
  {
    NarrowKeepsInts(items, NumberFor(isUid, us, k), NumberFor(isUid, us, |us|));
  }

  /** FETCH and COPY address exactly the messages the set names. */
  lemma AddressedIsNamed(items: seq<Item>, isUid: bool, us: seq<nat>, i: nat)
    requires i < |us| && Ascending(us) && forall u :: u in us ==> u >= 1
    ensures Addressed(SetText(items), isUid, us, i) <==> Selects(items, isUid, us, i + 1)
  {
    hide InNarrowSet, ParseSeqSet, SetText;
    assert us[i] in us;
    NarrowMeaning(items, NumberFor(isUid, us, i + 1), NumberFor(isUid, us, |us|));
  }

  // ---- FETCH ----

  /** The reply for the k-th message. */
  ghost predicate IsReply(t: Table, us: seq<nat>, f: FetchItems, r: Reply, k: nat)
    requires 1 <= k <= |us|
  {
    && r.position == k && r.uid == us[k - 1] && r.uid in t && r.bytes == t[r.uid].bytes
    && r.flags == (if f.body && !f.peek then t[r.uid].flags.(seen := true) else t[r.uid].flags)
    && r.part == if f.body then Some(SectionOf(f.section, r.bytes)) else None
  }

  /** One reply for every message named among the first n, in order, and no other. */
  ghost predicate RepliesFor(t: Table, items: seq<Item>, isUid: bool, f: FetchItems, n: nat, replies: seq<Reply>) {
    var us := UidList(t);
    && n <= |us|
    && (forall i, j :: 0 <= i < j < |replies| ==> replies[i].position < replies[j].position)
    && (forall r :: r in replies ==>
          && 1 <= r.position <= n && Selects(items, isUid, us, r.position) && IsReply(t, us, f, r, r.position))
    && (forall k :: 1 <= k <= n && Selects(items, isUid, us, k) ==> exists r :: r in replies && r.position == k)
  }

  /** Exactly the messages named among the first n are marked seen, if the FETCH marks. */
  ghost predicate MarkedFor(t: Table, items: seq<Item>, isUid: bool, f: FetchItems, n: nat, now: Table) {
    var us := UidList(t);
    && now.Keys == t.Keys && n <= |us|
    && (forall k :: 1 <= k <= |us| ==>
          && us[k - 1] in t
          && var m := t[us[k - 1]];
             now[us[k - 1]] ==
             if f.body && !f.peek && k <= n && Selects(items, isUid, us, k) then m.(flags := m.flags.(seen := true))
             else m)
  }

  lemma {:induction false} RepliesAreFor(t: Table, items: seq<Item>, isUid: bool, f: FetchItems, n: nat)
    requires n <= |UidList(t)| && Positive(t) && forall u :: u in UidList(t) ==> u in t
    ensures RepliesFor(t, items, isUid, f, n, Replies(t, SetText(items), isUid, UidList(t), f, n))
  {
    if n > 0 {
      var us := UidList(t);
      SelectsAddressed(t, items, isUid, n);
      hide Addressed, Positive, RepliesFor, UidList, SectionOf, Selects;
      RepliesAreFor(t, items, isUid, f, n - 1);
      var before := Replies(t, SetText(items), isUid, us, f, n - 1);
      if Selects(items, isUid, us, n) {
        var m := t[us[n - 1]];
        var r := Reply(n, us[n - 1], SentFlags(m, f), m.bytes, Mailboxes.Part(f, m.bytes));
        OneReplyMore(t, items, isUid, f, n, before, r);
      } else {
        NoReplyMore(t, items, isUid, f, n, before);
        assert before + [] == before;
      }
    }
  }

  lemma OneReplyMore(t: Table, items: seq<Item>, isUid: bool, f: FetchItems, n: nat, before: seq<Reply>, r: Reply)
    requires 1 <= n <= |UidList(t)| && RepliesFor(t, items, isUid, f, n - 1, before)
    requires Selects(items, isUid, UidList(t), n) && IsReply(t, UidList(t), f, r, n)
    ensures RepliesFor(t, items, isUid, f, n, before + [r])
  {
    hide Selects, UidList, IsReply;
    assert r.position == n by { AtPosition(t, UidList(t), f, r, n); }
    var us, all := UidList(t), before + [r];
    forall k | 1 <= k <= n && Selects(items, isUid, us, k) ensures exists x :: x in all && x.position == k {
      if k < n {
        var x :| x in before && x.position == k;
        assert x in all;
      } else {
        assert r in all;
      }
    }
    forall i | 0 <= i < |before| ensures before[i].position < n {
      assert before[i] in before;
    }
  }

  lemma AtPosition(t: Table, us: seq<nat>, f: FetchItems, r: Reply, k: nat)
    requires 1 <= k <= |us| && IsReply(t, us, f, r, k)
    ensures r.position == k
  {
  }

  lemma NoReplyMore(t: Table, items: seq<Item>, isUid: bool, f: FetchItems, n: nat, before: seq<Reply>)
    requires 1 <= n <= |UidList(t)| && RepliesFor(t, items, isUid, f, n - 1, before)
    requires !Selects(items, isUid, UidList(t), n)
    ensures RepliesFor(t, items, isUid, f, n, before)
  {
    hide Selects, UidList, IsReply;
  }

  /** In a reachable mailbox the set selects what it addresses. */
  lemma SelectsAddressed(t: Table, items: seq<Item>, isUid: bool, k: nat)
    requires Positive(t) && 1 <= k <= |UidList(t)|
    ensures var us := UidList(t);
            us[k - 1] in t && (Selects(items, isUid, us, k) <==> Addressed(SetText(items), isUid, us, k - 1))
  {
    UidListSpec(t);
    hide UidList, Addressed, Selects, SetText;
    var us := UidList(t);
    assert us[k - 1] in us;
    AddressedIsNamed(items, isUid, us, k - 1);
  }

  lemma FetchedIsMarked(t: Table, items: seq<Item>, isUid: bool, f: FetchItems, n: nat)
    requires n <= |UidList(t)| && Positive(t)
    ensures MarkedFor(t, items, isUid, f, n, Fetched(t, SetText(items), isUid, UidList(t), f, n))
  {
    var us := UidList(t);
    UidListSpec(t);
    hide Addressed, UidList, Selects;
    forall k | 1 <= k <= |us|
      ensures us[k - 1] in t
      ensures us[k - 1] in AddressedUids(SetText(items), isUid, us, n) <==> k <= n && Selects(items, isUid, us, k)
    {
      assert us[k - 1] in us;
      AddressedIsNamed(items, isUid, us, k - 1);
      if us[k - 1] in AddressedUids(SetText(items), isUid, us, n) {
        var i :| 0 <= i < n && Addressed(SetText(items), isUid, us, i) && us[i] == us[k - 1];
        assert i == k - 1;
      }
    }
  }

  /**
   FETCH, for every set: one reply for each message named, in order, with its UID, flags and data as stored
   now, and exactly those messages are marked. It stops at the first message named whose file is empty, and
   only if it reads files.
   */
  lemma FetchMeaning(t: Table, items: seq<Item>, isUid: bool, f: FetchItems, ok: bool, n: nat, now: Table,
                     replies: seq<Reply>)
    requires Positive(t) && FetchResult(t, SetText(items), isUid, f, ok, n, now, replies)
    ensures RepliesFor(t, items, isUid, f, n, replies)
    ensures MarkedFor(t, items, isUid, f, if ok then n else n + 1, now)
    ensures var us := UidList(t);
            if ok then n == |us|
            else (f.body || f.size) && n < |us| && Selects(items, isUid, us, n + 1)
                 && us[n] in t && t[us[n]].bytes == ""
    ensures var us := UidList(t);
            (f.body || f.size) ==>
              forall k :: 1 <= k <= n && Selects(items, isUid, us, k) ==> us[k - 1] in t && t[us[k - 1]].bytes != ""
  {
    hide SectionOf, Addressed, Selects, SetText;
    FetchEnds(t, SetText(items), isUid, f, ok, n, now, replies);
    hide FetchResult;
    RepliesAreFor(t, items, isUid, f, n);
    FetchedIsMarked(t, items, isUid, f, if ok then n else n + 1);
    hide RepliesFor, MarkedFor, Replies, Fetched;
    var us := UidList(t);
    forall k | 1 <= k <= |us|
      ensures us[k - 1] in t && (Selects(items, isUid, us, k) <==> Addressed(SetText(items), isUid, us, k - 1))
    {
      SelectsAddressed(t, items, isUid, k);
    }
    hide UidList, Positive;
  }

  /** Where a FETCH ended, in the functions it is made of. */
  lemma FetchEnds(t: Table, set_: string, isUid: bool, f: FetchItems, ok: bool, n: nat, now: Table, replies: seq<Reply>)
    requires FetchResult(t, set_, isUid, f, ok, n, now, replies)
    ensures var us, last := UidList(t), if ok then n else n + 1;
            && n <= last <= |us| && (ok ==> n == |us|) && (forall u :: u in us ==> u in t)
            && replies == Replies(t, set_, isUid, us, f, n) && now == Fetched(t, set_, isUid, us, f, last)
            && (!ok ==> f.Reads() && Addressed(set_, isUid, us, n) && t[us[n]].bytes == "")
            && (f.Reads() ==> forall i :: 0 <= i < n && Addressed(set_, isUid, us, i) ==> t[us[i]].bytes != "")
  {
    hide UidList, Addressed, Replies, Fetched;
    var us := UidList(t);
    if !ok {
      var r :| FetchState(t, set_, isUid, f, n + 1, now, replies + [r]);
      StoppedReplies(t, set_, isUid, us, f, n, replies, r);
    }
  }

  lemma StoppedReplies(t: Table, set_: string, isUid: bool, us: seq<nat>, f: FetchItems, n: nat,
                       replies: seq<Reply>, r: Reply)
    requires n < |us| && (forall u :: u in us ==> u in t) && Addressed(set_, isUid, us, n)
    requires replies + [r] == Replies(t, set_, isUid, us, f, n + 1)
    ensures replies == Replies(t, set_, isUid, us, f, n)
  {
    hide Addressed;
    var before := Replies(t, set_, isUid, us, f, n);
    var all := replies + [r];
    assert all[..|all| - 1] == replies;
    assert all[..|all| - 1] == before;
  }

  // ---- sections of a message ----

  /**
   BODY[HEADER.FIELDS (names)] of a message with well-formed header fields sends exactly the fields with those
   names, whole and in order, and a blank line; HEADER.FIELDS.NOT is taken for the same.
   */
  lemma FieldsSection(word: string, names: seq<string>, headers: seq<HeaderFilter.Header>, sep: string, text: string)
    requires EqualIgnoreCase(word, "HEADER.FIELDS") || EqualIgnoreCase(word, "HEADER.FIELDS.NOT")
    requires (forall h :: h in headers ==> HeaderFilter.Proper(h)) && HeaderFilter.Separator(sep) && Tokens(names)
    requires TempAlloc.NulFree(HeaderFilter.HeaderText(headers) + sep + text)
    ensures SectionOf(word + " (" + Join(names) + ")", HeaderFilter.HeaderText(headers) + sep + text) ==
            HeaderFilter.HeaderText(HeaderFilter.Wanted(headers, names)) + HeaderFilter.CRLF
  {
    var list := "(" + Join(names) + ")";
    var full := HeaderFilter.HeaderText(headers) + sep + text;
    assert word + " (" + Join(names) + ")" == word + (" " + list);
    FieldsSectionIs(word, list, full);
    hide SectionOf;
    hide HeaderFilter.HeaderText, HeaderFilter.Wanted, HeaderFilter.FilterHeaderFields, HeaderFilter.Proper;
    HeaderFilter.FieldsAsAsked(headers, sep, text, names, list);
  }

  lemma FieldsSectionIs(word: string, list: string, full: string)
    requires EqualIgnoreCase(word, "HEADER.FIELDS") || EqualIgnoreCase(word, "HEADER.FIELDS.NOT")
    requires |list| >= 2 && list[0] == '(' && list[|list| - 1] == ')'
    ensures SectionOf(word + (" " + list), full) == HeaderFilter.FilterHeaderFields(full, list)
  {
    ListAsked(word, list);
    hide FieldsAsked, Trim, HeaderFilter.FilterHeaderFields;
    assert |word| >= 13;
  }

  lemma ListAsked(word: string, list: string)
    requires EqualIgnoreCase(word, "HEADER.FIELDS") || EqualIgnoreCase(word, "HEADER.FIELDS.NOT")
    requires |list| >= 2 && list[0] == '(' && list[|list| - 1] == ')'
    ensures var section := word + (" " + list);
            |section| >= 13 && EqualIgnoreCase(section[..13], "HEADER.FIELDS")
            && FieldsAsked(Trim(section[13..])) == list
  {
    var section := word + (" " + list);
    BlankAndList(list);
    if EqualIgnoreCase(word, "HEADER.FIELDS") {
      assert |word| == 13;
      assert section[13..] == " " + list && section[..13] == word;
    } else {
      NotInTwo(word);
      assert section[..13] == word[..13] && section[13..] == word[13..] + (" " + list);
      NotAndList(word[13..], list);
    }
  }

  lemma NotInTwo(word: string)
    requires EqualIgnoreCase(word, "HEADER.FIELDS.NOT")
    ensures |word| == 17 && EqualIgnoreCase(word[..13], "HEADER.FIELDS") && EqualIgnoreCase(word[13..], ".NOT")
  {
    var w := "HEADER.FIELDS.NOT";
    assert w[..13] == "HEADER.FIELDS" && w[13..] == ".NOT";
    assert forall i :: 0 <= i < 4 ==> word[13..][i] == word[13 + i] && ".NOT"[i] == w[13 + i];
    assert forall i :: 0 <= i < 13 ==> word[..13][i] == word[i] && "HEADER.FIELDS"[i] == w[i];
  }

  lemma BlankAndList(list: string)
    requires |list| >= 2 && list[0] == '(' && list[|list| - 1] == ')'
    ensures Trim(" " + list) == list && FieldsAsked(list) == list
  {
    assert " " + list == " " + list + "";
    TrimAround(" ", list, "");
    if |list| > 4 {
      assert list[..4][0] == '(' && ".NOT"[0] == '.';
    }
  }

  lemma NotAndList(not: string, list: string)
    requires EqualIgnoreCase(not, ".NOT") && |list| >= 2 && list[0] == '(' && list[|list| - 1] == ')'
    ensures FieldsAsked(Trim(not + (" " + list))) == list
  {
    var rest := not + (" " + list);
    BlankAndList(list);
    assert LowerChar(not[0]) == LowerChar(".NOT"[0]) == '.';
    assert !IsSpace(rest[0]) && rest[|rest| - 1] == ')';
    TrimNoSpace(rest);
    assert rest[..4] == not && rest[4..] == " " + list;
  }

  /** BODY[HEADER] and BODY[TEXT] of a message with CRLF line ends are cut behind the blank line. */
  lemma HeaderAndTextSections(block: string, text: string)
    requires HeaderFilter.NoBlankLine(block) && |block| >= 2 && block[|block| - 2..] == HeaderFilter.CRLF
    ensures var full := block + HeaderFilter.CRLF + text;
            && (forall word :: EqualIgnoreCase(word, "HEADER") ==> SectionOf(word, full) == block + HeaderFilter.CRLF)
            && (forall word :: EqualIgnoreCase(word, "TEXT") ==> SectionOf(word, full) == text)
            && SectionOf("", full) == full
  {
    HeaderFilter.CrLfBlockIsCut(block, text);
  }

  // ---- COPY ----

  /** The UIDs of the messages selected among the first n, in order. */
  ghost predicate SourcesFor(items: seq<Item>, isUid: bool, us: seq<nat>, n: nat, picked: seq<nat>)
    requires n <= |us|
  {
    && Ascending(picked)
    && (forall u :: u in picked ==> exists k :: 1 <= k <= n && u == us[k - 1] && Selects(items, isUid, us, k))
    && (forall k :: 1 <= k <= n && Selects(items, isUid, us, k) ==> us[k - 1] in picked)
  }

  /** The source list of a COPY, for every set. */
  lemma {:induction false} CopySources(items: seq<Item>, isUid: bool, us: seq<nat>, n: nat)
    requires n <= |us| && Ascending(us) && forall u :: u in us ==> u >= 1
    ensures SourcesFor(items, isUid, us, n, PickedUids(SetText(items), isUid, us, n))
  {
    hide Addressed, Selects;
    if n > 0 {
      CopySources(items, isUid, us, n - 1);
      AddressedIsNamed(items, isUid, us, n - 1);
      hide SourcesFor, SetText;
      var before := PickedUids(SetText(items), isUid, us, n - 1);
      if Selects(items, isUid, us, n) {
        OneSourceMore(items, isUid, us, n, before);
      } else {
        NoSourceMore(items, isUid, us, n, before);
        assert before + [] == before;
      }
    }
  }

  lemma OneSourceMore(items: seq<Item>, isUid: bool, us: seq<nat>, n: nat, before: seq<nat>)
    requires 1 <= n <= |us| && Ascending(us) && SourcesFor(items, isUid, us, n - 1, before)
    requires Selects(items, isUid, us, n)
    ensures SourcesFor(items, isUid, us, n, before + [us[n - 1]])
  {
    hide Selects;
    forall i | 0 <= i < |before| ensures before[i] < us[n - 1] {
      assert before[i] in before;
    }
  }

  lemma NoSourceMore(items: seq<Item>, isUid: bool, us: seq<nat>, n: nat, before: seq<nat>)
    requires 1 <= n <= |us| && SourcesFor(items, isUid, us, n - 1, before) && !Selects(items, isUid, us, n)
    ensures SourcesFor(items, isUid, us, n, before)
  {
    hide Selects;
  }

  /**
   COPY, for every set: the messages selected, in order, each under its own new UID with its flags and bytes.
   It stops before the first one whose file is empty.
   */
  lemma CopySelects(t: Table, t0: Table, items: seq<Item>, isUid: bool, base: nat -> string, ok: bool, n: nat,
                    now: Table, srcUids: seq<nat>, dstUids: seq<nat>)
    requires Positive(t) && CopyResult(t, t0, SetText(items), isUid, base, ok, n, now, srcUids, dstUids)
    ensures n <= |UidList(t)| && SourcesFor(items, isUid, UidList(t), n, srcUids) && |dstUids| == |srcUids|
    ensures forall i :: 0 <= i < |srcUids| ==>
              && srcUids[i] in t && t[srcUids[i]].bytes != "" && dstUids[i] == Next(t0) + i && dstUids[i] in now
              && now[dstUids[i]] == Message(base(i), t[srcUids[i]].flags, t[srcUids[i]].bytes)
    ensures if ok then n == |UidList(t)|
            else n < |UidList(t)| && Selects(items, isUid, UidList(t), n + 1)
                 && UidList(t)[n] in t && t[UidList(t)[n]].bytes == ""
  {
    var us := UidList(t);
    UidListSpec(t);
    hide UidList, Next, AddCopies, Selects, Addressed, SetText, PickedUids, Appended, NoneEmpty, SourcesFor;
    assert NoneEmpty(t, SetText(items), isUid, n);
    CopyIs(t, t0, SetText(items), isUid, base, ok, n, now, srcUids, dstUids);
    CopySources(items, isUid, us, n);
    AppendedMeaning(t0, CopiesOf(t, srcUids, base), now, dstUids);
    if !ok {
      SelectsAddressed(t, items, isUid, n + 1);
    }
    SourcesHaveBytes(t, items, isUid, n, srcUids);
  }

  lemma SourcesHaveBytes(t: Table, items: seq<Item>, isUid: bool, n: nat, picked: seq<nat>)
    requires n <= |UidList(t)| && SourcesFor(items, isUid, UidList(t), n, picked)
    requires Positive(t) && NoneEmpty(t, SetText(items), isUid, n)
    ensures forall u :: u in picked ==> u in t && t[u].bytes != ""
  {
    hide UidList, Selects, Addressed, SetText;
    var us := UidList(t);
    forall u | u in picked ensures u in t && t[u].bytes != "" {
      var k :| 1 <= k <= n && u == us[k - 1] && Selects(items, isUid, us, k);
      SelectsAddressed(t, items, isUid, k);
    }
  }

  // ---- EXPUNGE ----

  /** EXPUNGE and CLOSE remove the messages flagged \\Deleted, UID EXPUNGE those of them its set selects. */
  lemma ExpungeSelects(t: Table, uids: Option<seq<Item>>)
    requires Positive(t)
    ensures var us := UidList(t);
            var doomed := Expunges.Doomed(t, ExpungeRanges(if uids.Some? then Some(SetText(uids.value)) else None, us));
            && doomed <= t.Keys
            && forall i :: 0 <= i < |us| ==>
                 && us[i] in t
                 && (us[i] in doomed <==>
                       t[us[i]].flags.deleted && (uids.Some? ==> Selects(uids.value, true, us, i + 1)))
  {
    var us := UidList(t);
    UidListSpec(t);
    hide UidList, SetText, ParseSeqSet, Selects, InRanges;
    forall i | 0 <= i < |us|
      ensures us[i] in t
      ensures uids.Some? ==>
                (Addressed(SetText(uids.value), true, us, i) <==> Selects(uids.value, true, us, i + 1))
    {
      assert us[i] in us;
      if uids.Some? {
        AddressedIsNamed(uids.value, true, us, i);
      }
    }
  }

  // ---- STORE ----

  /** The line of a STORE: one number or UID, an item such as +FLAGS and a list of flags, with blanks around them. */
  function StoreLine(n: nat, op: string, toks: seq<string>, gap: string): string {
    gap + (Decimal(n) + (" " + (gap + (op + (" " + (gap + ("(" + Join(toks) + ")"))))))) + gap
  }

  lemma StoreLineReads(n: nat, op: string, toks: seq<string>, gap: string)
    requires op != "" && NoSpace(op) && Blanks(gap)
    ensures StoreArgs(StoreLine(n, op, toks, gap)) == (Narrowed(n), op, "(" + Join(toks) + ")")
  {
    var d, list := Decimal(n), "(" + Join(toks) + ")";
    var rest := op + (" " + (gap + list));
    var line := d + (" " + (gap + rest));
    IntOfDecimal(n);
    assert IsDigit(d[0]) && NoSpace(d);
    assert op[0] in op && rest[0] == op[0] && rest[|rest| - 1] == ')';
    assert line[0] == d[0] && line[|line| - 1] == ')';
    hide Decimal, Join;
    TrimAround(gap, line, gap);
    WordThenRest(d, gap, rest);
    WordThenRest(op, gap, list);
    TrimNoSpace(rest);
    TrimNoSpace(list);
    hide Trim, Split, IntOf;
  }

  /** The flags a STORE leaves: replaced by those listed, or with those listed added or removed. */
  function FlagsAfter(was: Flags, op: string, toks: seq<string>): Flags {
    if op != "" && op[0] == '-' then Switched(was, FlagsListed(toks), false)
    else if op == "" || op[0] == '+' then Switched(was, FlagsListed(toks), true)
    else FlagsListed(toks)
  }

  lemma StoreFlagsByName(was: Flags, op: string, toks: seq<string>)
    requires Tokens(toks)
    ensures StoreFlags(was, op, "(" + Join(toks) + ")") == FlagsAfter(was, op, toks)
  {
    hide FlagsListed;
    StripParensOf(Join(toks));
    ListByName(toks, was, true);
    ListByName(toks, was, false);
    ListByName(toks, NO_FLAGS, true);
  }

  /** The number is that of message k, or its UID. */
  predicate Numbers(number: int, isUid: bool, us: seq<nat>, k: nat)
    requires 1 <= k <= |us|
  {
    number == NumberFor(isUid, us, k)
  }

  /**
   STORE, for every number, item and list of flags: the one message with that number or UID gets the flags
   asked for, every other row stays, and the reply has its position, UID and flags; without such a message
   nothing happens. Numbers are cut down to int.
   */
  lemma StoreByNumber(t: Table, n: nat, op: string, toks: seq<string>, gap: string, isUid: bool,
                      now: Table, echo: Option<Echo>)
    requires op != "" && NoSpace(op) && Tokens(toks) && Blanks(gap)
    requires StoreResult(t, StoreLine(n, op, toks, gap), isUid, now, echo)
    ensures n <= INT_MAX ==> Narrowed(n) == n
    ensures var us := UidList(t);
            match echo
            case None => now == t && forall k :: 1 <= k <= |us| ==> !Numbers(Narrowed(n), isUid, us, k)
            case Some(e) =>
              && 1 <= e.position <= |us| && Numbers(Narrowed(n), isUid, us, e.position)
              && e.uid == us[e.position - 1] && e.uid in t
              && var f := FlagsAfter(t[e.uid].flags, op, toks);
                 now == t[e.uid := t[e.uid].(flags := f)] && e.flags == FlagsToImap(f)
  {
    hide StoreArgs, StoreFlags, FlagsAfter, Join, UidList, FlagsToImap;
    IntOfDecimal(n);
    StoreLineReads(n, op, toks, gap);
    hide StoreLine;
    var us := UidList(t);
    if echo.Some? {
      StoreFlagsByName(t[echo.value.uid].flags, op, toks);
    } else {
      forall k | 1 <= k <= |us| ensures !Numbers(Narrowed(n), isUid, us, k) {
        assert !StoreMatch(Narrowed(n), isUid, us, k - 1);
      }
    }
  }

  /** A number names one message at most, and every live UID and every position names one. */
  lemma NumbersOne(t: Table, number: int, isUid: bool)
    ensures var us := UidList(t);
            && (forall j, k :: 1 <= j <= |us| && 1 <= k <= |us| ==>
                  (Numbers(number, isUid, us, j) && Numbers(number, isUid, us, k) ==> j == k))
            && ((exists k :: 1 <= k <= |us| && Numbers(number, isUid, us, k)) <==>
                  if isUid then number >= 0 && (number as nat) in t else 1 <= number <= |us|)
  {
    UidListSpec(t);
    var us := UidList(t);
    hide UidList;
    if isUid {
      if number >= 0 && number in us {
        var i :| 0 <= i < |us| && us[i] == number;
        assert Numbers(number, isUid, us, i + 1);
      }
    } else if 1 <= number <= |us| {
      assert Numbers(number, isUid, us, number);
    }
  }

  // ---- APPEND ----

  /** The flags of an APPEND are those named in its list, and none without one. */
  lemma AppendFlagsByName(toks: seq<string>, more: string)
    requires Tokens(toks) && forall t :: t in toks ==> ')' !in t
    ensures AppendFlags("(" + Join(toks) + ")" + more) == FlagsListed(toks)
  {
    hide FlagsListed, ApplyList, AppendFlags;
    NoParens(toks);
    ListInside(Join(toks), more);
    hide Join;
    ListByName(toks, NO_FLAGS, true);
  }

  lemma ListInside(list: string, more: string)
    requires ')' !in list
    ensures AppendFlags("(" + list + ")" + more) == ApplyList(list, NO_FLAGS, true)
  {
    hide ApplyList;
    var rest := "(" + list + ")" + more;
    assert rest == ("(" + list) + [')'] + more;
    FindChar("(" + list, ')', more);
    assert rest[1..|list| + 1] == list && rest[0] == '(';
  }

  lemma {:induction false} NoParens(toks: seq<string>)
    requires forall t :: t in toks ==> ')' !in t
    ensures ')' !in Join(toks)
  {
    if toks != [] {
      assert toks[0] in toks;
      NoParens(toks[1..]);
    }
  }

  lemma NoListNoFlags(rest: string)
    requires rest == "" || rest[0] != '('
    ensures AppendFlags(rest) == NO_FLAGS
  {
  }
}
