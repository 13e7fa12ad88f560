/** Reading a directory: the enumeration, the sort by UID, sequence numbers and the next UID. */
module Listings {
  import opened Views
  import opened Maildir
  import opened Directory

  // ---- UIDs of a table in order ----

  ghost function Top(s: set<nat>): (m: nat)
    ensures forall x :: x in s ==> x <= m
    ensures if s == {} then m == 0 else m in s
  {
    if s == {} then 0
    else
      var x :| x in s;
      var m := Top(s - {x});
      assert forall y :: y in s ==> y == x || y in s - {x};
      if x > m then x else m
  }

  /** The UID next_uid will assign: one more than the largest in use. */
  ghost function Next(t: Table): nat {
    Top(t.Keys) + 1
  }

  predicate Ascending(us: seq<nat>) {
    forall i, j :: 0 <= i < j < |us| ==> us[i] < us[j]
  }

  ghost predicate Lists(us: seq<nat>, t: Table) {
    Ascending(us) && forall u :: u in us <==> u in t
  }

  ghost function Sorted(s: set<nat>): seq<nat> {
    if s == {} then [] else Sorted(s - {Top(s)}) + [Top(s)]
  }

  lemma {:induction false} SortedSpec(s: set<nat>)
    ensures Ascending(Sorted(s)) && forall u :: u in Sorted(s) <==> u in s
  {
    if s != {} {
      SortedSpec(s - {Top(s)});
      var a := Sorted(s - {Top(s)});
      forall i | 0 <= i < |a| ensures a[i] < Top(s) {
        assert a[i] in a;
      }
    }
  }

  /** The UIDs in use, ascending: the message with sequence number k is the k-th of them. */
  ghost function UidList(t: Table): seq<nat> {
    Sorted(t.Keys)
  }

  lemma UidListSpec(t: Table)
    ensures Lists(UidList(t), t)
  {
    SortedSpec(t.Keys);
  }

  lemma WithoutLast(a: seq<nat>, u: nat)
    requires Ascending(a) && a != []
    ensures Ascending(a[..|a| - 1]) && (u in a[..|a| - 1] <==> u in a && u != a[|a| - 1])
    ensures u in a ==> u <= a[|a| - 1]
  {
    assert a == a[..|a| - 1] + [a[|a| - 1]];
  }

  /** An ascending list is determined by its members, so every enumeration order sorts to one listing. */
  lemma {:induction false} AscendingUnique(a: seq<nat>, b: seq<nat>)
    requires Ascending(a) && Ascending(b) && forall u :: u in a <==> u in b
    ensures a == b
  {
    assert b != [] ==> b[0] in b;
    if a != [] {
      var x := a[|a| - 1];
      assert x in b;
      var y := b[|b| - 1];
      assert y in a;
      WithoutLast(a, y);
      WithoutLast(b, x);
      var a', b' := a[..|a| - 1], b[..|b| - 1];
      forall u ensures u in a' <==> u in b' {
        WithoutLast(a, u);
        WithoutLast(b, u);
      }
      AscendingUnique(a', b');
      assert a == a' + [x] && b == b' + [y];
    }
  }

  lemma {:induction false} PositionBelowUid(us: seq<nat>, i: nat)
    requires Ascending(us) && i < |us| && us[0] >= 1
    ensures us[i] >= i + 1
  {
    if i > 0 {
      PositionBelowUid(us, i - 1);
    }
  }

  lemma {:induction false} DenseList(us: seq<nat>, i: nat)
    requires Ascending(us) && i < |us| && us[0] >= 1 && us[|us| - 1] == |us|
    ensures us[i] == i + 1
    decreases |us| - i
  {
    PositionBelowUid(us, i);
    if i + 1 < |us| {
      DenseList(us, i + 1);
    }
  }

  lemma LastIsTop(us: seq<nat>, t: Table)
    requires Lists(us, t)
    ensures Next(t) == if us == [] then 1 else us[|us| - 1] + 1
  {
    if us == [] {
      assert t.Keys == {};
    } else {
      var last := us[|us| - 1];
      assert last in us && last in t.Keys;
      assert Top(t.Keys) in us;
    }
  }

  /**
   The UIDNEXT announced by SELECT and STATUS (count + 1) never exceeds the UID that will be assigned,
   and equals it exactly when the UIDs in use are 1..count.
   */
  lemma AnnouncedUidNext(t: Table)
    requires forall u :: u in t ==> u >= 1
    ensures |UidList(t)| + 1 <= Next(t)
    ensures |UidList(t)| + 1 == Next(t) <==> forall u :: u in t <==> 1 <= u <= |UidList(t)|
  {
    var us := UidList(t);
    UidListSpec(t);
    LastIsTop(us, t);
    if us != [] {
      assert us[0] in us;
      PositionBelowUid(us, |us| - 1);
      assert us[|us| - 1] in us;
      if us[|us| - 1] == |us| {
        forall i | 0 <= i < |us| ensures us[i] == i + 1 { DenseList(us, i); }
        forall u ensures u in t <==> 1 <= u <= |us| {
          if 1 <= u <= |us| { assert us[u - 1] == u; }
        }
      }
    }
  }

  /** Every message's UID is at least its sequence number. */
  lemma UidAtLeastPosition(t: Table, k: nat)
    requires forall u :: u in t ==> u >= 1
    requires 1 <= k <= |UidList(t)|
    ensures UidList(t)[k - 1] >= k
  {
    var us := UidList(t);
    UidListSpec(t);
    assert us[0] in us;
    PositionBelowUid(us, k - 1);
  }

  // ---- enumerating and sorting ----

  predicate Distinct(s: seq<string>) {
    forall i, j :: 0 <= i < j < |s| ==> s[i] != s[j]
  }

  /** One pass of readdir: every entry once, "." and ".." among them, in some order. */
  ghost predicate Enumerates(entries: seq<string>, d: Dir) {
    Distinct(entries) && forall n :: n in entries <==> n in d || n == "." || n == ".."
  }

  method ReadDir(d: Dir) returns (entries: seq<string>)
    ensures Enumerates(entries, d)
  {
    entries := [];
    var left := d.Keys + {".", ".."};
    while left != {}
      invariant Distinct(entries)
      invariant forall n :: n in entries || n in left <==> n in d || n == "." || n == ".."
      invariant forall n :: n in entries ==> n !in left
      decreases left
    {
      var n :| n in left;
      left := left - {n};
      entries := entries + [n];
    }
  }

  /** cmp_by_uid. */
  function CompareByUid(a: string, b: string): int {
    (if ParseUid(a) > ParseUid(b) then 1 else 0) - (if ParseUid(a) < ParseUid(b) then 1 else 0)
  }

  predicate SortedByUid(names: seq<string>) {
    forall i, j :: 0 <= i < j < |names| ==> CompareByUid(names[i], names[j]) <= 0
  }

  /** What qsort is used for: some permutation in which no pair is out of order. */
  method SortByUid(names: seq<string>) returns (r: seq<string>)
    ensures SortedByUid(r) && multiset(r) == multiset(names)
  {
    hide ParseUid;
    r := [];
    var i := 0;
    while i < |names|
      invariant 0 <= i <= |names|
      invariant SortedByUid(r) && multiset(r) == multiset(names[..i])
    {
      r := InsertByUid(r, names[i]);
      assert names[..i + 1] == names[..i] + [names[i]];
      i := i + 1;
    }
    assert names[..i] == names;
  }

  method InsertByUid(s: seq<string>, name: string) returns (r: seq<string>)
    requires SortedByUid(s)
    ensures SortedByUid(r) && multiset(r) == multiset(s) + multiset{name}
  {
    hide ParseUid;
    var k := |s|;
    while k > 0 && CompareByUid(s[k - 1], name) > 0
      invariant 0 <= k <= |s|
      invariant k < |s| ==> CompareByUid(s[k], name) > 0
    {
      k := k - 1;
    }
    r := s[..k] + [name] + s[k..];
    InsertedOnce(s, k, name);
    forall i, j | 0 <= i < j < |r| ensures CompareByUid(r[i], r[j]) <= 0 {
      InsertedInOrder(s, k, name, i, j);
    }
  }

  lemma InsertedOnce(s: seq<string>, k: nat, name: string)
    requires k <= |s|
    ensures multiset(s[..k] + [name] + s[k..]) == multiset(s) + multiset{name}
  {
    assert s == s[..k] + s[k..];
  }

  lemma InsertedInOrder(s: seq<string>, k: nat, name: string, i: nat, j: nat)
    requires SortedByUid(s) && k <= |s| && i < j <= |s|
    requires k < |s| ==> CompareByUid(s[k], name) > 0
    requires k > 0 ==> CompareByUid(s[k - 1], name) <= 0
    ensures var r := s[..k] + [name] + s[k..]; CompareByUid(r[i], r[j]) <= 0
  {
    hide ParseUid;
    var a, b := if i < k then i else i - 1, if j < k then j else j - 1;
    InsertedAt(s, k, name, i);
    InsertedAt(s, k, name, j);
    if i == k {
      assert k < b ==> CompareByUid(s[k], s[b]) <= 0;
    } else if j == k {
      assert a < k - 1 ==> CompareByUid(s[a], s[k - 1]) <= 0;
    }
  }

  lemma InsertedAt(s: seq<string>, k: nat, name: string, i: nat)
    requires k <= |s| && i <= |s|
    ensures (s[..k] + [name] + s[k..])[i] == if i < k then s[i] else if i == k then name else s[i - 1]
  {
  }

  function Uids(names: seq<string>): (us: seq<nat>)
    ensures |us| == |names|
  {
    seq(|names|, i requires 0 <= i < |names| => ParseUid(names[i]))
  }

  lemma NonMessageEntries()
    ensures !IsMessage(".") && !IsMessage("..") && !IsMessage(UIDVALIDITY_FILE) && !WellFormed(UIDVALIDITY_FILE)
    ensures ParseUid(".") == 0 && ParseUid("..") == 0 && ParseUid(UIDVALIDITY_FILE) == 0
  {
    DotEntries();
    hide ParseUid;
    UidValidityIsNoMessage();
  }

  lemma DotEntries()
    ensures !IsMessage(".") && !IsMessage("..") && ParseUid(".") == 0 && ParseUid("..") == 0
  {
    FindSpec(".", ".eml");
    FindSpec("..", ".eml");
    FindCharNone(".", ';');
    FindCharNone("..", ';');
  }

  lemma UidValidityIsNoMessage()
    ensures !IsMessage(UIDVALIDITY_FILE) && !WellFormed(UIDVALIDITY_FILE) && ParseUid(UIDVALIDITY_FILE) == 0
  {
    NoUidWithoutSemicolon(UIDVALIDITY_FILE);
    hide ParseUid;
    NoEmlInUidValidity();
  }

  lemma NoUidWithoutSemicolon(name: string)
    requires ';' !in name
    ensures ParseUid(name) == 0
  {
    FindCharNone(name, ';');
  }

  lemma NoEmlInUidValidity()
    ensures !IsMessage(UIDVALIDITY_FILE)
  {
    var s := UIDVALIDITY_FILE;
    FindSpec(s, ".eml");
    forall j: nat | j + 4 <= |s| ensures !OccursAt(s, ".eml", j) {
      assert s[j..j + 4][0] == s[j] && s[j..j + 4][1] == s[j + 1];
    }
  }

  /** In a good directory the ".eml" test picks exactly the messages. */
  lemma MessageIffWellFormed(d: Dir, n: string)
    requires Inv(d) && (n in d || n == "." || n == "..")
    ensures IsMessage(n) <==> n in d && WellFormed(n)
    ensures !IsMessage(n) ==> ParseUid(n) == 0
  {
    hide ParseUid, ParseFlags, FlagsBasename, MaildirFilename, IsMessage;
    NonMessageEntries();
    if n in d && WellFormed(n) {
      WellFormedIsMessage(n);
    } else if n != "." && n != ".." {
      assert n == UIDVALIDITY_FILE;
    }
  }

  predicate NamesOf(names: seq<string>, d: Dir) {
    forall i :: 0 <= i < |names| ==> names[i] in d && WellFormed(names[i])
  }

  /** The messages of a directory by ascending UID, as every IMAP handler gathers them. */
  method ListMessages(d: Dir) returns (names: seq<string>)
    requires Inv(d)
    ensures NamesOf(names, d) && Uids(names) == UidList(View(d))
  {
    hide ParseUid, ParseFlags, FlagsBasename, MaildirFilename, WellFormed, IsMessage;
    var entries := ReadDir(d);
    var found: seq<string> := [];
    var i := 0;
    while i < |entries|
      invariant 0 <= i <= |entries|
      invariant Distinct(found)
      invariant forall n :: n in found <==> n in entries[..i] && n in d && WellFormed(n)
    {
      var name := entries[i];
      assert name in entries;
      MessageIffWellFormed(d, name);
      assert entries[..i + 1] == entries[..i] + [name];
      assert name !in entries[..i];
      var isMessage := SvFind(name, ".eml");
      assert isMessage.Some? <==> IsMessage(name) by { MessageTest(name); }
      if isMessage.Some? {
        found := found + [name];
      }
      i := i + 1;
    }
    assert entries[..i] == entries;
    names := SortByUid(found);
    SortedListing(names, found, d);
  }

  lemma MessageTest(name: string)
    ensures IsMessage(name) <==> Find(name, ".eml").Some?
  {
  }

  lemma SortedListing(names: seq<string>, found: seq<string>, d: Dir)
    requires Inv(d) && Distinct(found) && forall n :: n in found <==> n in d && WellFormed(n)
    requires SortedByUid(names) && multiset(names) == multiset(found)
    ensures NamesOf(names, d) && Uids(names) == UidList(View(d))
  {
    hide ParseUid, ParseFlags, FlagsBasename, MaildirFilename, WellFormed, IsMessage;
    SameMembers(names, found);
    forall i | 0 <= i < |names| ensures names[i] in d && WellFormed(names[i]) {
      assert names[i] in names;
    }
    UidListSpec(View(d));
    SortedAscends(names, d);
    forall u ensures u in Uids(names) <==> u in View(d) {
      ListedUid(names, d, u);
    }
    AscendingUnique(Uids(names), UidList(View(d)));
  }

  lemma SortedAscends(names: seq<string>, d: Dir)
    requires Inv(d) && NamesOf(names, d) && SortedByUid(names) && Distinct(names)
    ensures Ascending(Uids(names))
  {
    hide ParseUid, ParseFlags, FlagsBasename, MaildirFilename, WellFormed, IsMessage;
    var us := Uids(names);
    forall i, j | 0 <= i < j < |us| ensures us[i] < us[j] {
      assert CompareByUid(names[i], names[j]) <= 0;
      assert names[i] in d && names[j] in d && names[i] != names[j];
    }
  }

  lemma ListedUid(names: seq<string>, d: Dir, u: nat)
    requires Inv(d) && NamesOf(names, d) && forall n :: n in d && WellFormed(n) ==> n in names
    ensures u in Uids(names) <==> u in View(d)
  {
    hide ParseUid, ParseFlags, FlagsBasename, MaildirFilename, WellFormed, IsMessage;
    if u in Uids(names) {
      var i :| 0 <= i < |names| && Uids(names)[i] == u;
      ViewHas(d, names[i]);
    }
    if u in View(d) {
      ViewName(d, u);
      var n := NameFor(u, View(d)[u]);
      var i :| 0 <= i < |names| && names[i] == n;
      assert Uids(names)[i] == u;
    }
  }

  lemma SameMembers(a: seq<string>, b: seq<string>)
    requires multiset(a) == multiset(b) && Distinct(b)
    ensures Distinct(a) && forall n :: n in a <==> n in b
  {
    forall n ensures n in a <==> n in b {
      assert n in a <==> n in multiset(a);
      assert n in b <==> n in multiset(b);
    }
    forall n ensures multiset(b)[n] <= 1 { DistinctOnce(b, n); }
    forall i, j | 0 <= i < j < |a| ensures a[i] != a[j] {
      assert a == a[..i] + [a[i]] + a[i + 1..j] + [a[j]] + a[j + 1..];
      assert multiset(a)[a[i]] <= 1;
    }
  }

  lemma {:induction false} DistinctOnce(s: seq<string>, n: string)
    requires Distinct(s)
    ensures multiset(s)[n] <= 1
  {
    if s != [] {
      DistinctOnce(s[1..], n);
      assert s == [s[0]] + s[1..];
      assert s[0] !in s[1..];
    }
  }

  /** One above every UID that some file name reads as, and no higher than it must be. */
  ghost predicate Above(d: Dir, uid: nat) {
    && uid >= 1
    && (forall n :: n in d ==> ParseUid(n) < uid)
    && (uid > 1 ==> exists n :: n in d && ParseUid(n) == uid - 1)
  }

  /** next_uid: the maximum over every entry of the directory, plus one, whatever the directory holds. */
  method NextUid(d: Dir) returns (uid: nat)
    ensures Above(d, uid)
    ensures Inv(d) ==> uid == Next(View(d)) && uid >= 1 && uid !in View(d)
  {
    hide Next, ParseUid, ParseFlags, FlagsBasename, MaildirFilename, WellFormed, IsMessage;
    var entries := ReadDir(d);
    var max := 0;
    var i := 0;
    while i < |entries|
      invariant 0 <= i <= |entries|
      invariant forall j :: 0 <= j < i ==> ParseUid(entries[j]) <= max
      invariant max == 0 || exists j :: 0 <= j < i && ParseUid(entries[j]) == max
    {
      var u := ReadUid(entries[i]);
      if u > max {
        max := u;
      }
      i := i + 1;
    }
    uid := max + 1;
    LargestUid(d, entries, max);
    if Inv(d) {
      AboveIsNext(d, uid);
    }
  }

  lemma LargestUid(d: Dir, entries: seq<string>, max: nat)
    requires Enumerates(entries, d)
    requires forall j :: 0 <= j < |entries| ==> ParseUid(entries[j]) <= max
    requires max == 0 || exists j :: 0 <= j < |entries| && ParseUid(entries[j]) == max
    ensures Above(d, max + 1)
  {
    hide ParseUid, IsMessage, WellFormed;
    NonMessageEntries();
    forall n | n in d ensures ParseUid(n) <= max {
      assert n in entries;
      var j :| 0 <= j < |entries| && entries[j] == n;
    }
    if max != 0 {
      var j :| 0 <= j < |entries| && ParseUid(entries[j]) == max;
      assert entries[j] in entries;
    }
  }

  lemma AboveIsNext(d: Dir, uid: nat)
    requires Inv(d) && Above(d, uid)
    ensures uid == Next(View(d)) && uid !in View(d)
  {
    hide ParseUid, ParseFlags, FlagsBasename, MaildirFilename, WellFormed, IsMessage;
    var top := Top(View(d).Keys);
    if View(d).Keys != {} {
      ViewName(d, top);
      assert top < uid;
    }
    if uid > 1 {
      var n :| n in d && ParseUid(n) == uid - 1;
      MessageIffWellFormed(d, n);
      ViewHas(d, n);
      assert uid - 1 in View(d).Keys;
    }
  }
}
