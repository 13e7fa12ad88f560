/** EXPUNGE responses and what a client makes of them (section 7.4.1 of RFC 3501). */
module Expunges {
  import opened Views
  import opened Maildir
  import opened Directory
  import opened Listings
  import opened SeqSets

  /** A client drops entry number k and shifts the later ones down; a number its list does not have is an error. */
  function DropEntry(list: seq<nat>, k: nat): Option<seq<nat>> {
    if 1 <= k <= |list| then Some(list[..k - 1] + list[k..]) else None
  }

  /** The client's list after applying the numbers one by one, None after an error. */
  function Replay(list: seq<nat>, numbers: seq<nat>): Option<seq<nat>> {
    if numbers == [] then Some(list)
    else match Replay(list, numbers[..|numbers| - 1])
      case None => None
      case Some(now) => DropEntry(now, numbers[|numbers| - 1])
  }

  /** So every number answers for one entry. */
  lemma {:induction false} ReplayCounts(list: seq<nat>, numbers: seq<nat>)
    ensures Replay(list, numbers).Some? ==> |Replay(list, numbers).value| + |numbers| == |list|
  {
    if numbers != [] {
      ReplayCounts(list, numbers[..|numbers| - 1]);
    }
  }

  /** The listed messages that are not removed, in order. */
  function Survivors(us: seq<nat>, doomed: set<nat>): seq<nat> {
    if us == [] then []
    else Survivors(us[..|us| - 1], doomed) + (if us[|us| - 1] in doomed then [] else [us[|us| - 1]])
  }

  /** The messages an expunge removes: flagged \Deleted and, for UID EXPUNGE, in the set. */
  ghost function Doomed(t: Table, ranges: Option<seq<Range>>): set<nat> {
    set u | u in t && t[u].flags.deleted && (ranges.Some? ==> InRanges(ranges.value, u))
  }

  lemma {:induction false} SurvivorsSpec(us: seq<nat>, doomed: set<nat>)
    requires Ascending(us)
    ensures Ascending(Survivors(us, doomed))
    ensures forall u :: u in Survivors(us, doomed) <==> u in us && u !in doomed
  {
    if us != [] {
      var front, last := us[..|us| - 1], us[|us| - 1];
      assert us == front + [last];
      SurvivorsSpec(front, doomed);
      var s := Survivors(front, doomed);
      forall i | 0 <= i < |s| ensures s[i] < last {
        assert s[i] in s;
      }
    }
  }

  /** The surviving list is the listing of the table without the removed rows. */
  lemma SurvivorsListing(t: Table, doomed: set<nat>)
    ensures Survivors(UidList(t), doomed) == UidList(t - doomed)
  {
    UidListSpec(t);
    UidListSpec(t - doomed);
    SurvivorsSpec(UidList(t), doomed);
    AscendingUnique(Survivors(UidList(t), doomed), UidList(t - doomed));
  }

  /** One more "* k EXPUNGE", with k one more than the messages kept so far. */
  lemma ReplayStep(list: seq<nat>, numbers: seq<nat>, kept: seq<nat>, u: nat, rest: seq<nat>)
    requires Replay(list, numbers) == Some(kept + ([u] + rest))
    ensures Replay(list, numbers + [|kept| + 1]) == Some(kept + rest)
  {
    var more := numbers + [|kept| + 1];
    assert more[..|more| - 1] == numbers;
    DropMiddle(kept, u, rest);
  }

  lemma DropMiddle(kept: seq<nat>, u: nat, rest: seq<nat>)
    ensures DropEntry(kept + ([u] + rest), |kept| + 1) == Some(kept + rest)
  {
    var now := kept + ([u] + rest);
    assert now[..|kept|] == kept;
    assert now[|kept| + 1..] == rest;
  }

  /** After i of the listed messages: the next number, and the client's list so far. */
  ghost predicate Progress(us: seq<nat>, doomed: set<nat>, i: nat, numbers: seq<nat>, seqno: nat) {
    && i <= |us|
    && seqno == |Survivors(us[..i], doomed)| + 1
    && Replay(us, numbers) == Some(Survivors(us[..i], doomed) + us[i..])
  }

  lemma ProgressStart(us: seq<nat>, doomed: set<nat>)
    ensures Progress(us, doomed, 0, [], 1)
  {
    assert us[..0] == [];
    assert [] + us[0..] == us;
  }

  lemma SurvivorsStep(us: seq<nat>, doomed: set<nat>, i: nat)
    requires i < |us|
    ensures Survivors(us[..i + 1], doomed) == Survivors(us[..i], doomed) + (if us[i] in doomed then [] else [us[i]])
  {
    assert us[..i + 1][..i] == us[..i];
  }

  /** A removed message announces seqno and does not advance it; a kept one only advances it. */
  lemma ProgressStep(us: seq<nat>, doomed: set<nat>, i: nat, numbers: seq<nat>, seqno: nat)
    requires Progress(us, doomed, i, numbers, seqno) && i < |us|
    ensures if us[i] in doomed then Progress(us, doomed, i + 1, numbers + [seqno], seqno)
            else Progress(us, doomed, i + 1, numbers, seqno + 1)
  {
    var kept := Survivors(us[..i], doomed);
    SurvivorsStep(us, doomed, i);
    assert us[i..] == [us[i]] + us[i + 1..];
    hide Survivors, Replay;
    if us[i] in doomed {
      ReplayStep(us, numbers, kept, us[i], us[i + 1..]);
      assert kept + [] == kept;
    } else {
      Assoc(kept, [us[i]], us[i + 1..]);
    }
  }

  lemma ProgressEnd(t: Table, doomed: set<nat>, numbers: seq<nat>, seqno: nat)
    requires Progress(UidList(t), doomed, |UidList(t)|, numbers, seqno)
    ensures Replay(UidList(t), numbers) == Some(UidList(t - doomed))
    ensures |UidList(t - doomed)| + |numbers| == |UidList(t)|
  {
    var us := UidList(t);
    assert us[..|us|] == us && us[|us|..] == [];
    assert Survivors(us, doomed) + [] == Survivors(us, doomed);
    SurvivorsListing(t, doomed);
    ReplayCounts(us, numbers);
  }

  /** What UID EXPUNGE removes, said about the set the client wrote (section 2.1 of RFC 4315). */
  lemma UidExpungeMeaning(t: Table, items: seq<Item>, u: nat)
    requires forall v :: v in t ==> v >= 1
    ensures var max := Top(t.Keys);
            u in Doomed(t, Some(ParseSeqSet(SetText(items), max))) <==>
            u in t && t[u].flags.deleted && InNarrowSet(items, u, max)
    ensures u in Doomed(t, None) <==> u in t && t[u].flags.deleted
    ensures (forall x :: x in items ==> ItemFits(x)) ==>
              (InNarrowSet(items, u, Top(t.Keys)) <==> InSet(items, u, Top(t.Keys)))
  {
    SeqSetMeaning(items, u, Top(t.Keys));
    assert u in t ==> u in t.Keys;
  }
}
