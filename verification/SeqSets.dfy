/** imap.c: message sets such as 1,3:5,9:* (sequence-set in section 9 of RFC 3501). */
module SeqSets {
  import opened Views
  import opened Decimals

  datatype Range = Range(start: int, end: int)

  // ---- what the server does ----

  /** "*" stands for max, anything else goes through sv_to_int. */
  function NumberOf(s: string, max: int): int {
    if s == "*" then max else IntOf(s)
  }

  /** The two endpoints of a trimmed, non-empty token, put in order. */
  function Ends(tok: string, max: int): (int, int) {
    match Find(tok, ":")
    case None => (NumberOf(tok, max), NumberOf(tok, max))
    case Some(i) =>
      if i >= |tok| then (0, 0) else InOrder(NumberOf(Trim(tok[..i]), max), NumberOf(Trim(tok[i + 1..]), max))
  }

  function InOrder(a: int, b: int): (int, int) {
    if b < a then (b, a) else (a, b)
  }

  /** The part of lo..hi inside 1..max, if any. */
  function Clamp(ends: (int, int), max: int): seq<Range> {
    var start := if ends.0 < 1 then 1 else ends.0;
    var end := if ends.1 > max then max else ends.1;
    if start <= end then [Range(start, end)] else []
  }

  function RangeOf(tok: string, max: int): seq<Range> {
    Clamp(Ends(tok, max), max)
  }

  function ParseSeqSet(s: string, max: int): seq<Range>
    decreases |s|
  {
    if s == "" then []
    else
      var (tok, rest) := Split(s, ',');
      (if Trim(tok) == "" then [] else RangeOf(Trim(tok), max)) + ParseSeqSet(rest, max)
  }

  predicate InRanges(ranges: seq<Range>, k: int) {
    exists i :: 0 <= i < |ranges| && ranges[i].start <= k <= ranges[i].end
  }

  /** The loop of parse_seq_set. */
  method ParseSet(s: string, max: int) returns (ranges: seq<Range>)
    ensures ranges == ParseSeqSet(s, max)
  {
    ranges := [];
    var rest := s;
    while rest != ""
      invariant ParseSeqSet(s, max) == ranges + ParseSeqSet(rest, max)
      decreases |rest|
    {
      var tok, more := SvSplitDelim(rest, ',');
      tok := SvTrim(tok);
      var r := [];
      if tok != "" {
        r := ParseToken(tok, max);
      }
      Assoc(ranges, r, ParseSeqSet(more, max));
      ranges := ranges + r;
      rest := more;
    }
  }

  method ParseToken(tok: string, max: int) returns (r: seq<Range>)
    ensures r == RangeOf(tok, max)
  {
    var a, b;
    var colon := SvFind(tok, ":");
    FindSpec(tok, ":");
    if colon.None? {
      a := Number(tok, max);
      b := a;
    } else {
      var left := SvTrim(tok[..colon.value]);
      a := Number(left, max);
      var right := SvTrim(tok[colon.value + 1..]);
      b := Number(right, max);
      if b < a {
        a, b := b, a;
      }
    }
    assert (a, b) == Ends(tok, max);
    if a < 1 {
      a := 1;
    }
    if b > max {
      b := max;
    }
    r := if a <= b then [Range(a, b)] else [];
  }

  method Number(s: string, max: int) returns (n: int)
    ensures n == NumberOf(s, max)
  {
    if s == "*" {
      return max;
    }
    var l, _ := SvToLong(s);
    n := ToInt32(l);
  }

  /** The loop of seq_in_ranges. */
  method SeqInRanges(ranges: seq<Range>, k: int) returns (r: bool)
    ensures r <==> InRanges(ranges, k)
  {
    var i := 0;
    while i < |ranges|
      invariant 0 <= i <= |ranges|
      invariant forall j :: 0 <= j < i ==> !(ranges[j].start <= k <= ranges[j].end)
    {
      if k >= ranges[i].start && k <= ranges[i].end {
        return true;
      }
      i := i + 1;
    }
    r := false;
  }

  // ---- what a set means ----

  datatype Num = Star | N(n: nat)
  datatype Item = One(a: Num) | Between(a: Num, b: Num)

  function NumText(x: Num): string {
    if x.Star? then "*" else Decimal(x.n)
  }

  function ItemText(x: Item): string {
    if x.One? then NumText(x.a) else NumText(x.a) + ":" + NumText(x.b)
  }

  function SetText(items: seq<Item>): string {
    if items == [] then ""
    else if |items| == 1 then ItemText(items[0])
    else ItemText(items[0]) + "," + SetText(items[1..])
  }

  function Value(x: Num, max: int): int {
    if x.Star? then max else x.n
  }

  /** Section 9 of RFC 3501: endpoints in either order, "*" the largest number in use. */
  predicate InItem(x: Item, k: int, max: int) {
    match x
    case One(a) => k == Value(a, max)
    case Between(a, b) => Value(a, max) <= k <= Value(b, max) || Value(b, max) <= k <= Value(a, max)
  }

  predicate InSet(items: seq<Item>, k: int, max: int) {
    exists x :: x in items && InItem(x, k, max)
  }

  // ---- the same with every number cut down to an int ----

  /** What sv_to_int makes of a number: the limit of long first, then the low 32 bits. */
  function Narrowed(n: nat): int {
    ToInt32(Saturated(n))
  }

  function NarrowValue(x: Num, max: int): int {
    if x.Star? then max else Narrowed(x.n)
  }

  predicate InNarrowItem(x: Item, k: int, max: int) {
    match x
    case One(a) => k == NarrowValue(a, max)
    case Between(a, b) =>
      || NarrowValue(a, max) <= k <= NarrowValue(b, max)
      || NarrowValue(b, max) <= k <= NarrowValue(a, max)
  }

  predicate InNarrowSet(items: seq<Item>, k: int, max: int) {
    exists x :: x in items && InNarrowItem(x, k, max)
  }

  predicate Fits(x: Num) {
    x.Star? || x.n <= INT_MAX
  }

  predicate ItemFits(x: Item) {
    Fits(x.a) && (x.Between? ==> Fits(x.b))
  }

  // ---- the two agree ----

  lemma NumTextChars(x: Num)
    ensures NumText(x) != "" && NoSpace(NumText(x)) && ',' !in NumText(x) && ':' !in NumText(x)
  {
  }

  lemma NumberOfText(x: Num, max: int)
    ensures NumberOf(NumText(x), max) == NarrowValue(x, max)
  {
    if x.N? {
      IntOfDecimal(x.n);
      assert IsDigit(Decimal(x.n)[0]);
    }
  }

  lemma ItemTextChars(x: Item)
    ensures ItemText(x) != "" && Trim(ItemText(x)) == ItemText(x) && ',' !in ItemText(x)
  {
    NumTextChars(x.a);
    if x.Between? {
      NumTextChars(x.b);
    }
    assert NoSpace(ItemText(x));
    TrimNoSpace(ItemText(x));
  }

  lemma ItemRange(x: Item, k: int, max: int)
    ensures InRanges(RangeOf(ItemText(x), max), k) <==> 1 <= k <= max && InNarrowItem(x, k, max)
  {
    var tok := ItemText(x);
    NumTextChars(x.a);
    NumberOfText(x.a, max);
    if x.One? {
      FindCharNone(tok, ':');
    } else {
      NumTextChars(x.b);
      NumberOfText(x.b, max);
      FindChar(NumText(x.a), ':', NumText(x.b));
      TrimNoSpace(NumText(x.a));
      TrimNoSpace(NumText(x.b));
      var i := |NumText(x.a)|;
      assert tok[..i] == NumText(x.a) && tok[i + 1..] == NumText(x.b);
    }
    InClamp(Ends(tok, max), k, max);
  }

  lemma InClamp(ends: (int, int), k: int, max: int)
    ensures InRanges(Clamp(ends, max), k) <==> 1 <= k <= max && ends.0 <= k <= ends.1
  {
    var r := Clamp(ends, max);
    if r != [] {
      assert InRanges(r, k) <==> r[0].start <= k <= r[0].end;
    }
  }

  lemma InRangesAppend(a: seq<Range>, b: seq<Range>, k: int)
    ensures InRanges(a + b, k) <==> InRanges(a, k) || InRanges(b, k)
  {
    if InRanges(a, k) {
      var i :| 0 <= i < |a| && a[i].start <= k <= a[i].end;
      assert (a + b)[i] == a[i];
    }
    if InRanges(b, k) {
      var i :| 0 <= i < |b| && b[i].start <= k <= b[i].end;
      assert (a + b)[|a| + i] == b[i];
    }
  }

  /** For every set, the ranges the server builds select exactly what it means among 1..max, numbers narrowed. */
  lemma {:induction false} NarrowMeaning(items: seq<Item>, k: int, max: int)
    ensures InRanges(ParseSeqSet(SetText(items), max), k) <==> 1 <= k <= max && InNarrowSet(items, k, max)
  {
    if items != [] {
      var x, more := items[0], items[1..];
      assert items == [x] + more;
      ItemTextChars(x);
      ItemRange(x, k, max);
      NarrowMeaning(more, k, max);
      InRangesAppend(RangeOf(ItemText(x), max), ParseSeqSet(SetText(more), max), k);
      if more != [] {
        SplitAt(ItemText(x), ',', SetText(more));
      }
      assert InNarrowSet(items, k, max) <==> InNarrowItem(x, k, max) || InNarrowSet(more, k, max);
    }
  }

  lemma NarrowKeepsInts(items: seq<Item>, k: int, max: int)
    requires forall x :: x in items ==> ItemFits(x)
    ensures InNarrowSet(items, k, max) <==> InSet(items, k, max)
  {
    forall x | x in items ensures InNarrowItem(x, k, max) <==> InItem(x, k, max) {
    }
  }

  /** So they select exactly what the set means, as written when its numbers are ints, narrowed in any case. */
  lemma SeqSetMeaning(items: seq<Item>, k: int, max: int)
    ensures InRanges(ParseSeqSet(SetText(items), max), k) <==> 1 <= k <= max && InNarrowSet(items, k, max)
    ensures (forall x :: x in items ==> ItemFits(x)) ==> (InNarrowSet(items, k, max) <==> InSet(items, k, max))
  {
    NarrowMeaning(items, k, max);
    if forall x :: x in items ==> ItemFits(x) {
      NarrowKeepsInts(items, k, max);
    }
  }

  /** n:* always names the last message, also for n beyond it (section 6.4.8 of RFC 3501). */
  lemma StarRangeHasLast(n: nat, max: int)
    requires max >= 1
    ensures InRanges(ParseSeqSet(Decimal(n) + ":*", max), max)
  {
    var items := [Between(N(n), Star)];
    assert SetText(items) == Decimal(n) + ":" + "*" == Decimal(n) + ":*";
    assert Between(N(n), Star) in items && InNarrowItem(Between(N(n), Star), max, max);
    NarrowMeaning(items, max, max);
  }

  lemma InSetOne(x: Item, k: int, max: int)
    ensures InSet([x], k, max) <==> InItem(x, k, max)
    ensures InNarrowSet([x], k, max) <==> InNarrowItem(x, k, max)
  {
    assert x in [x];
  }

  /** A lone number selects the message its narrowed value names. */
  lemma LoneNumber(n: nat, k: int, max: int)
    ensures InRanges(ParseSeqSet(Decimal(n), max), k) <==> 1 <= k <= max && k == Narrowed(n)
  {
    var items := [One(N(n))];
    assert SetText(items) == Decimal(n);
    NarrowMeaning(items, k, max);
    InSetOne(One(N(n)), k, max);
  }

  /** Message number 4294967297 is message 1. */
  lemma WrappedNumber(n: nat, max: int)
    requires n == 4294967297 && max >= 1
    ensures InRanges(ParseSeqSet(Decimal(n), max), 1)
  {
    hide Decimal, ParseSeqSet;
    LoneNumber(n, 1, max);
  }

  /** So a lone number is honoured in every mailbox exactly when it is an int or narrows below 1. */
  lemma LoneNumberExactly(n: nat)
    ensures (forall k, max :: 0 <= max <= INT_MAX ==>
              (InRanges(ParseSeqSet(Decimal(n), max), k) <==> 1 <= k <= max && InSet([One(N(n))], k, max)))
            <==> n <= INT_MAX || Narrowed(n) < 1
  {
    IntOfDecimal(n);
    var m := Narrowed(n);
    if n > INT_MAX && m >= 1 {
      LoneNumber(n, m, INT_MAX);
      InSetOne(One(N(n)), m, INT_MAX);
    } else {
      forall k, max | 0 <= max <= INT_MAX
        ensures InRanges(ParseSeqSet(Decimal(n), max), k) <==> 1 <= k <= max && InSet([One(N(n))], k, max)
      {
        LoneNumber(n, k, max);
        InSetOne(One(N(n)), k, max);
      }
    }
  }
}
