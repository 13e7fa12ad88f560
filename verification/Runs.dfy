/**
 Runs: any sequence of mailbox commands over any number of mailboxes.

 An operation says what one command does to the table of a mailbox; the driver shows that every run of
 commands on directories is a run of operations on tables, and the laws are about all such runs.
 */
module Runs {
  import opened Views
  import opened Maildir
  import opened Directory
  import opened Listings
  import opened SeqSets
  import opened Expunges
  import opened Mailboxes

  datatype Operation =
    | Add(box: nat, msgs: seq<Message>)
    | SetFlags(box: nat, uid: nat, flags: Flags)
    | Mark(box: nat, uids: set<nat>)
    | Remove(box: nat, ranges: Option<seq<Range>>)

  ghost function ApplyTo(t: Table, op: Operation): Table {
    match op
    case Add(_, msgs) => AddCopies(t, Next(t), msgs)
    case SetFlags(_, uid, flags) => if uid in t then t[uid := t[uid].(flags := flags)] else t
    case Mark(_, uids) => MarkSeen(t, uids)
    case Remove(_, ranges) => t - Doomed(t, ranges)
  }

  ghost function Apply(s: seq<Table>, op: Operation): (r: seq<Table>)
    ensures |r| == |s|
  {
    if op.box < |s| then s[op.box := ApplyTo(s[op.box], op)] else s
  }

  ghost function Run(s: seq<Table>, ops: seq<Operation>): (r: seq<Table>)
    ensures |r| == |s|
  {
    if ops == [] then s else Apply(Run(s, ops[..|ops| - 1]), ops[|ops| - 1])
  }

  lemma RunSnoc(s: seq<Table>, ops: seq<Operation>, op: Operation)
    ensures Run(s, ops + [op]) == Apply(Run(s, ops), op)
  {
    assert (ops + [op])[..|ops|] == ops;
  }

  // ---- laws of one operation ----

  /** The same message, whatever its flags are now. */
  predicate Same(a: Message, b: Message) {
    a.base == b.base && a.bytes == b.bytes
  }

  ghost predicate Positive(t: Table) {
    forall u :: u in t ==> u >= 1
  }

  /** A message stays under its UID with its bytes unless it is flagged \Deleted and expunged. */
  lemma StepKeeps(t: Table, op: Operation, u: nat)
    requires u in t
    ensures var r := ApplyTo(t, op);
            if op.Remove? && u in Doomed(t, op.ranges) then u !in r && t[u].flags.deleted
            else u in r && Same(r[u], t[u])
  {
    if op.Add? {
      AddCopiesSpec(t, Next(t), op.msgs);
    }
  }

  lemma StepPositive(t: Table, op: Operation)
    requires Positive(t)
    ensures Positive(ApplyTo(t, op))
  {
    if op.Add? {
      AddCopiesSpec(t, Next(t), op.msgs);
    }
  }

  // ---- laws of runs ----

  /** Before operation k of the run the message was still there; that operation expunged it. */
  ghost predicate ExpungedAt(s: seq<Table>, ops: seq<Operation>, box: nat, u: nat, k: nat)
    requires box < |s| && u in s[box]
  {
    && k < |ops| && ops[k].Remove? && ops[k].box == box
    && var t := Run(s, ops[..k])[box];
       u in t && Same(t[u], s[box][u]) && t[u].flags.deleted && u in Doomed(t, ops[k].ranges)
  }

  /**
   Over every run: a message is still under its UID with its bytes, or some expunge of its mailbox
   removed it while it was flagged \Deleted.
   */
  lemma {:induction false} OnlyExpungedDisappear(s: seq<Table>, ops: seq<Operation>, box: nat, u: nat)
    requires box < |s| && u in s[box]
    ensures (u in Run(s, ops)[box] && Same(Run(s, ops)[box][u], s[box][u]))
            || exists k :: ExpungedAt(s, ops, box, u, k)
  {
    if ops != [] {
      var n := |ops| - 1;
      var front := ops[..n];
      OnlyExpungedDisappear(s, front, box, u);
      if k: nat :| ExpungedAt(s, front, box, u, k) {
        assert ops[..k] == front[..k];
        assert ExpungedAt(s, ops, box, u, k);
      } else if ops[n].box == box {
        var t := Run(s, front)[box];
        StepKeeps(t, ops[n], u);
        if ops[n].Remove? && u in Doomed(t, ops[n].ranges) {
          assert ExpungedAt(s, ops, box, u, n);
        }
      }
    }
  }

  lemma {:induction false} UidsStayPositive(s: seq<Table>, ops: seq<Operation>, box: nat)
    requires box < |s| && Positive(s[box])
    ensures Positive(Run(s, ops)[box])
  {
    if ops != [] {
      UidsStayPositive(s, ops[..|ops| - 1], box);
      if ops[|ops| - 1].box == box {
        StepPositive(Run(s, ops[..|ops| - 1])[box], ops[|ops| - 1]);
      }
    }
  }

  // ---- commands on directories ----

  datatype Command =
    | Deliver(box: nat, base: string, body: string)
    | Append(box: nat, base: string, rest: string, body: string)
    | Store(box: nat, args: string, isUid: bool)
    | Fetch(box: nat, set_: string, isUid: bool, items: FetchItems)
    | Expunge(box: nat)
    | UidExpunge(box: nat, set_: string)
    | Close(box: nat)
    | Copy(box: nat, dst: nat, set_: string, isUid: bool, bases: nat -> string)
    | Select(box: nat, now: int)

  /** The unique parts a command may bring along are the server's own. */
  ghost predicate Admissible(c: Command, n: nat) {
    c.box < n &&
    match c
    case Deliver(_, base, _) => UsableBase(base)
    case Append(_, base, _, _) => UsableBase(base)
    case Copy(_, dst, _, _, bases) => dst < n && forall k: nat :: UsableBase(bases(k))
    case _ => true
  }

  ghost predicate AllValid(boxes: seq<Mailbox>)
    reads boxes
  {
    && (forall i :: 0 <= i < |boxes| ==> boxes[i].Valid())
    && (forall i, j :: 0 <= i < j < |boxes| ==> boxes[i] != boxes[j])
  }

  ghost function Tables(boxes: seq<Mailbox>): (s: seq<Table>)
    requires AllValid(boxes)
    reads boxes
    ensures |s| == |boxes|
  {
    seq(|boxes|, i requires 0 <= i < |boxes| reads boxes requires AllValid(boxes) => View(boxes[i].dir))
  }

  /** The mailbox a command changes. */
  function Target(c: Command): nat {
    if c.Copy? then c.dst else c.box
  }

  lemma AddOne(t: Table, m: Message)
    ensures AddCopies(t, Next(t), [m]) == t[Next(t) := m]
  {
    OneMoreCopy(t, Next(t), [], m);
    assert [] + [m] == [m];
  }

  lemma MarkNone(t: Table)
    ensures MarkSeen(t, {}) == t
  {
  }

  // ---- what each command means for the tables ----

  /** The flag list of an APPEND is not closed. */
  predicate BadFlagList(rest: string) {
    rest != "" && rest[0] == '(' && ')' !in rest
  }

  /**
   How far a FETCH or COPY gets: through all listed messages, or, if it reads files, up to the first
   addressed one whose file is empty.
   */
  ghost predicate Reached(src: Table, set_: string, isUid: bool, opens: bool, n: nat) {
    var us := UidList(src);
    && n <= |us| && (forall u :: u in us ==> u in src)
    && (opens ==> NoneEmpty(src, set_, isUid, n))
    && (n < |us| ==> opens && Addressed(set_, isUid, us, n) && src[us[n]].bytes == "")
  }

  /** There is one such place. */
  lemma ReachedOnce(src: Table, set_: string, isUid: bool, opens: bool, m: nat, n: nat)
    requires Reached(src, set_, isUid, opens, m) && Reached(src, set_, isUid, opens, n)
    ensures m == n
  {
    hide Addressed;
  }

  /** The one operation a command stands for, src being its mailbox before it. */
  ghost predicate Means(c: Command, src: Table, op: Operation) {
    var us := UidList(src);
    match c
    case Deliver(box, base, body) => op == Add(box, [Message(base, NO_FLAGS, body)])
    case Append(box, base, rest, body) =>
      op == Add(box, if BadFlagList(rest) then [] else [Message(base, AppendFlags(rest), body)])
    case Store(box, args, isUid) => MeansStore(box, args, isUid, src, op)
    case Fetch(box, set_, isUid, items) =>
      exists n :: Reached(src, set_, isUid, items.Reads(), n) && op == Mark(box, Marked(src, set_, isUid, items, n))
    case Expunge(box) => op == Remove(box, None)
    case UidExpunge(box, set_) => op == Remove(box, ExpungeRanges(Some(set_), us))
    case Close(box) => op == Remove(box, None)
    case Copy(_, dst, set_, isUid, bases) =>
      exists n :: Reached(src, set_, isUid, true, n) && op == Add(dst, Copied(src, set_, isUid, bases, n))
    case Select(box, _) => op == Add(box, [])
  }

  ghost predicate MeansStore(box: nat, args: string, isUid: bool, src: Table, op: Operation) {
    var (number, opText, list) := StoreArgs(args);
    match StoreIndex(number, isUid, UidList(src), 0)
    case None => op == Add(box, [])
    case Some(i) =>
      var u := UidList(src)[i];
      u in src && op == SetFlags(box, u, StoreFlags(src[u].flags, opText, list))
  }

  /** The messages a FETCH marks seen; one whose file is empty is marked before it stops the command. */
  ghost function Marked(src: Table, set_: string, isUid: bool, items: FetchItems, n: nat): set<nat>
    requires Reached(src, set_, isUid, items.Reads(), n)
  {
    var us := UidList(src);
    if items.Marks() then AddressedUids(set_, isUid, us, if n < |us| then n + 1 else n) else {}
  }

  /** The messages a COPY writes. */
  ghost function Copied(src: Table, set_: string, isUid: bool, bases: nat -> string, n: nat): seq<Message>
    requires Reached(src, set_, isUid, true, n)
  {
    PickedAreListed(set_, isUid, UidList(src), n);
    CopiesOf(src, PickedUids(set_, isUid, UidList(src), n), bases)
  }

  lemma {:induction false} PickedAreListed(set_: string, isUid: bool, us: seq<nat>, n: nat)
    requires n <= |us|
    ensures forall u :: u in PickedUids(set_, isUid, us, n) ==> u in us
  {
    if n > 0 {
      PickedAreListed(set_, isUid, us, n - 1);
    }
  }

  predicate IsExpunge(c: Command) {
    c.Expunge? || c.UidExpunge? || c.Close?
  }

  /** A command on a table means one operation only, so its effect is determined. */
  lemma MeansOnce(c: Command, src: Table, a: Operation, b: Operation)
    requires Means(c, src, a) && Means(c, src, b)
    ensures a == b
  {
    hide UidList, StoreFlags, StoreIndex, StoreArgs, AppendFlags, Reached, Marked, Copied;
    match c
    case Fetch(_, set_, isUid, items) =>
      var m :| Reached(src, set_, isUid, items.Reads(), m) && a == Mark(c.box, Marked(src, set_, isUid, items, m));
      var n :| Reached(src, set_, isUid, items.Reads(), n) && b == Mark(c.box, Marked(src, set_, isUid, items, n));
      ReachedOnce(src, set_, isUid, items.Reads(), m, n);
    case Copy(_, dst, set_, isUid, bases) =>
      var m :| Reached(src, set_, isUid, true, m) && a == Add(dst, Copied(src, set_, isUid, bases, m));
      var n :| Reached(src, set_, isUid, true, n) && b == Add(dst, Copied(src, set_, isUid, bases, n));
      ReachedOnce(src, set_, isUid, true, m, n);
    case _ =>
  }

  lemma MeansRemove(c: Command, src: Table, op: Operation)
    requires Means(c, src, op)
    ensures op.box == Target(c) && (op.Remove? <==> IsExpunge(c))
    ensures op.Remove? ==> op.ranges == if c.UidExpunge? then ExpungeRanges(Some(c.set_), UidList(src)) else None
  {
    hide Marked, Copied, Reached, UidList, StoreFlags, StoreIndex, StoreArgs, AppendFlags;
  }

  // ---- laws of runs of commands ----

  /** Operation by operation, the run is what the commands mean, each on the tables before it. */
  ghost predicate Follows(s: seq<Table>, commands: seq<Command>, ops: seq<Operation>) {
    && |ops| == |commands|
    && (forall i :: 0 <= i < |ops| ==> commands[i].box < |s|)
    && (forall i :: 0 <= i < |ops| ==> Means(commands[i], Run(s, ops[..i])[commands[i].box], ops[i]))
  }

  /** Command k was an expunge or close of the mailbox, and the message was there, \Deleted, and in the set named. */
  ghost predicate LostAt(s: seq<Table>, commands: seq<Command>, ops: seq<Operation>, box: nat, u: nat, k: nat)
    requires |ops| == |commands| && box < |s| && u in s[box]
  {
    && k < |commands| && IsExpunge(commands[k]) && commands[k].box == box
    && var t := Run(s, ops[..k])[box];
       && u in t && Same(t[u], s[box][u]) && t[u].flags.deleted
       && (commands[k].UidExpunge? ==> InRanges(ParseSeqSet(commands[k].set_, SetMax(true, UidList(t))), u))
  }

  /** The message is still under its UID with its bytes, or some command of its mailbox expunged it. */
  ghost predicate Accounted(s: seq<Table>, commands: seq<Command>, ops: seq<Operation>, box: nat, u: nat)
    requires |ops| == |commands| && box < |s| && u in s[box]
  {
    || (u in Run(s, ops)[box] && Same(Run(s, ops)[box][u], s[box][u]))
    || exists k :: LostAt(s, commands, ops, box, u, k)
  }

  /** Over every run of commands only messages flagged \Deleted at an EXPUNGE, UID EXPUNGE or CLOSE disappear. */
  lemma CommandsLoseOnlyDeleted(s: seq<Table>, commands: seq<Command>, ops: seq<Operation>, box: nat, u: nat)
    requires Follows(s, commands, ops) && box < |s| && u in s[box]
    ensures Accounted(s, commands, ops, box, u)
  {
    hide Means, Run;
    OnlyExpungedDisappear(s, ops, box, u);
    if k: nat :| ExpungedAt(s, ops, box, u, k) {
      MeansRemove(commands[k], Run(s, ops[..k])[commands[k].box], ops[k]);
      assert LostAt(s, commands, ops, box, u, k);
    }
  }

  // ---- the commands on directories ----

  /** STORE as an operation on the table. */
  method DoStore(mb: Mailbox, c: Command) returns (ghost op: Operation)
    requires mb.Valid() && c.Store?
    modifies mb
    ensures mb.Valid() && MeansStore(c.box, c.args, c.isUid, old(View(mb.dir)), op)
    ensures View(mb.dir) == ApplyTo(old(View(mb.dir)), op) && KeepsValidity(old(mb.dir), mb.dir)
  {
    hide Inv, View, Others, KeepsValidity, UidList, StoreArgs, StoreIndex, StoreFlags;
    ghost var t := View(mb.dir);
    ghost var us := UidList(t);
    ghost var (number, opText, list) := StoreArgs(c.args);
    var _ := mb.Store(c.args, c.isUid);
    OthersKeepValidity(old(mb.dir), mb.dir);
    match StoreIndex(number, c.isUid, us, 0)
    case None =>
      op := Add(c.box, []);
    case Some(i) =>
      op := SetFlags(c.box, us[i], StoreFlags(t[us[i]].flags, opText, list));
  }

  /** FETCH as an operation on the table. */
  method DoFetch(mb: Mailbox, c: Command) returns (ghost op: Operation)
    requires mb.Valid() && c.Fetch?
    modifies mb
    ensures mb.Valid() && Means(c, old(View(mb.dir)), op)
    ensures View(mb.dir) == ApplyTo(old(View(mb.dir)), op) && KeepsValidity(old(mb.dir), mb.dir)
  {
    hide Inv, View, Others, KeepsValidity, UidList, AddressedUids, Replies, Addressed;
    ghost var t := View(mb.dir);
    UidListSpec(t);
    var ok, replies, done := mb.Fetch(c.set_, c.isUid, c.items);
    OthersKeepValidity(old(mb.dir), mb.dir);
    MarkNone(t);
    assert Reached(t, c.set_, c.isUid, c.items.Reads(), done);
    op := Mark(c.box, Marked(t, c.set_, c.isUid, c.items, done));
  }

  /** COPY as an operation on the table of the destination. */
  method DoCopy(mb: Mailbox, dst: Mailbox, c: Command) returns (ghost op: Operation)
    requires mb.Valid() && dst.Valid() && c.Copy? && forall k: nat :: UsableBase(c.bases(k))
    modifies dst
    ensures dst.Valid() && Means(c, old(View(mb.dir)), op)
    ensures View(dst.dir) == ApplyTo(old(View(dst.dir)), op) && KeepsValidity(old(dst.dir), dst.dir)
  {
    hide Inv, View, Others, KeepsValidity, UidList, Addressed, PickedUids, AddCopies, UsableBase;
    ghost var t := View(mb.dir);
    var ok, srcUids, dstUids, done := mb.Copy(dst, c.set_, c.isUid, c.bases);
    OthersKeepValidity(old(dst.dir), dst.dir);
    assert Reached(t, c.set_, c.isUid, true, done);
    op := Add(c.dst, Copied(t, c.set_, c.isUid, c.bases, done));
  }

  /** What one command does to its mailbox is the operation it means. */
  method Perform(mb: Mailbox, dst: Mailbox, c: Command) returns (ghost op: Operation)
    requires mb.Valid() && dst.Valid() && (!c.Copy? ==> mb == dst)
    requires exists n :: Admissible(c, n)
    modifies dst
    ensures dst.Valid() && op.box == Target(c) && Means(c, old(View(mb.dir)), op)
    ensures View(dst.dir) == ApplyTo(old(View(dst.dir)), op) && KeepsValidity(old(dst.dir), dst.dir)
  {
    hide Inv, View, Others, KeepsValidity, UidList, AddCopies, Doomed, Reached, Marked, Copied, StoreArgs, StoreIndex;
    ghost var t := View(dst.dir);
    match c
    case Deliver(_, base, body) =>
      var _ := mb.Deliver(base, body);
      OthersKeepValidity(old(dst.dir), dst.dir);
      op := Add(c.box, [Message(base, NO_FLAGS, body)]);
      AddOne(t, Message(base, NO_FLAGS, body));
    case Append(_, base, rest, body) =>
      var uid := mb.Append(base, rest, body);
      OthersKeepValidity(old(dst.dir), dst.dir);
      op := Add(c.box, if uid.Some? then [Message(base, AppendFlags(rest), body)] else []);
      AddOne(t, Message(base, AppendFlags(rest), body));
      AddNone(t);
    case Store(_, _, _) =>
      op := DoStore(mb, c);
    case Fetch(_, _, _, _) =>
      op := DoFetch(mb, c);
    case Expunge(_) =>
      var _ := mb.Expunge(None);
      OthersKeepValidity(old(dst.dir), dst.dir);
      op := Remove(c.box, None);
    case UidExpunge(_, set_) =>
      var _ := mb.Expunge(Some(set_));
      OthersKeepValidity(old(dst.dir), dst.dir);
      op := Remove(c.box, ExpungeRanges(Some(set_), UidList(t)));
    case Close(_) =>
      mb.Close();
      OthersKeepValidity(old(dst.dir), dst.dir);
      op := Remove(c.box, None);
    case Copy(_, _, _, _, _) =>
      op := DoCopy(mb, dst, c);
    case Select(_, now) =>
      var _, _, _ := mb.Select();
      var _ := mb.GetUidValidity(now);
      op := Add(c.box, []);
      AddNone(t);
  }

  lemma AddNone(t: Table)
    ensures AddCopies(t, Next(t), []) == t
  {
  }

  /** One command among all mailboxes. */
  method PerformIn(boxes: seq<Mailbox>, c: Command) returns (ghost op: Operation)
    requires AllValid(boxes) && Admissible(c, |boxes|)
    modifies boxes
    ensures AllValid(boxes) && Tables(boxes) == Apply(old(Tables(boxes)), op)
    ensures Means(c, old(Tables(boxes))[c.box], op)
    ensures forall b :: b in boxes ==> b.dir == old(b.dir) || KeepsValidity(old(b.dir), b.dir)
  {
    hide Inv, View, KeepsValidity, ApplyTo, Means, Apply;
    ghost var before := Tables(boxes);
    op := Perform(boxes[c.box], boxes[Target(c)], c);
    assert AllValid(boxes);
    OneTable(before, Tables(boxes), op);
  }

  /**
   Every run of commands on the directories is the run of the operations they mean on their tables, and
   every message that was there is accounted for.
   */
  method Serve(boxes: seq<Mailbox>, commands: seq<Command>) returns (ghost ops: seq<Operation>)
    requires AllValid(boxes) && forall c :: c in commands ==> Admissible(c, |boxes|)
    modifies boxes
    ensures AllValid(boxes) && Follows(old(Tables(boxes)), commands, ops)
    ensures Tables(boxes) == Run(old(Tables(boxes)), ops)
    ensures forall box: nat, u: nat :: box < |boxes| && u in old(Tables(boxes))[box] ==>
              Accounted(old(Tables(boxes)), commands, ops, box, u)
    ensures forall b :: b in boxes ==> KeepsValidity(old(b.dir), b.dir)
  {
    hide Inv, View, Others, KeepsValidity, ApplyTo, Means, Run, Apply, Accounted;
    ghost var s := Tables(boxes);
    ops := [];
    RunNone(s);
    forall b | b in boxes ensures KeepsValidity(b.dir, b.dir) {
      KeepsItself(b.dir);
    }
    var i := 0;
    while i < |commands|
      invariant 0 <= i == |ops| <= |commands|
      invariant AllValid(boxes) && Tables(boxes) == Run(s, ops)
      invariant Follows(s, commands[..i], ops)
      invariant forall b :: b in boxes ==> KeepsValidity(old(b.dir), b.dir)
    {
      var c := commands[i];
      assert c in commands;
      ghost var dirs := map b | b in boxes :: b.dir;
      ghost var op := PerformIn(boxes, c);
      forall b | b in boxes ensures KeepsValidity(old(b.dir), b.dir) {
        KeepsTransitively(old(b.dir), dirs[b], b.dir);
      }
      RunSnoc(s, ops, op);
      FollowsSnoc(s, commands[..i], ops, c, op);
      assert commands[..i + 1] == commands[..i] + [c];
      ops := ops + [op];
      i := i + 1;
    }
    assert commands[..i] == commands;
    forall box: nat, u: nat | box < |boxes| && u in s[box] ensures Accounted(s, commands, ops, box, u) {
      CommandsLoseOnlyDeleted(s, commands, ops, box, u);
    }
  }

  lemma KeepsItself(d: Dir)
    ensures KeepsValidity(d, d)
  {
  }

  lemma KeepsTransitively(a: Dir, b: Dir, c: Dir)
    requires KeepsValidity(a, b) && (b == c || KeepsValidity(b, c))
    ensures KeepsValidity(a, c)
  {
    hide Validity;
  }

  lemma RunNone(s: seq<Table>)
    ensures Run(s, []) == s
  {
  }

  lemma OneTable(before: seq<Table>, after: seq<Table>, op: Operation)
    requires |after| == |before| && op.box < |before|
    requires after[op.box] == ApplyTo(before[op.box], op)
    requires forall i :: 0 <= i < |before| && i != op.box ==> after[i] == before[i]
    ensures after == Apply(before, op)
  {
    hide ApplyTo;
  }

  lemma FollowsSnoc(s: seq<Table>, commands: seq<Command>, ops: seq<Operation>, c: Command, op: Operation)
    requires Follows(s, commands, ops) && c.box < |s| && Means(c, Run(s, ops)[c.box], op)
    ensures Follows(s, commands + [c], ops + [op])
  {
    hide Means, Run;
    forall i | 0 <= i < |ops| + 1
      ensures Means((commands + [c])[i], Run(s, (ops + [op])[..i])[(commands + [c])[i].box], (ops + [op])[i])
    {
      assert (ops + [op])[..i] == ops[..i];
      assert ops[..|ops|] == ops;
    }
  }
}
