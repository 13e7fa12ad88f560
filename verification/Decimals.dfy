/** printf("%d") of counts and UIDs, and the decimal readers of basic.c and maildir.c. */
module Decimals {
  import opened Views

  const LONG_MAX: int := 0x7fff_ffff_ffff_ffff
  const LONG_MIN: int := -0x8000_0000_0000_0000
  const INT_MAX: int := 0x7fff_ffff

  predicate IsDigit(c: char) {
    '0' <= c <= '9'
  }

  function DigitValue(c: char): int
    requires IsDigit(c)
  {
    c as int - '0' as int
  }

  function Digit(d: int): (c: char)
    requires 0 <= d < 10
    ensures IsDigit(c) && DigitValue(c) == d
  {
    ('0' as int + d) as char
  }

  function Decimal(n: nat): (s: string)
    ensures s != "" && forall i :: 0 <= i < |s| ==> IsDigit(s[i])
  {
    if n < 10 then [Digit(n)] else Decimal(n / 10) + [Digit(n % 10)]
  }

  /** The value of the leading digits of s, continued from acc (parse_uid). */
  function LeadingValue(s: string, acc: nat): nat {
    if s == "" || !IsDigit(s[0]) then acc
    else LeadingValue(s[1..], acc * 10 + DigitValue(s[0]))
  }

  /** Reading back what was printed, whatever comes after it. */
  lemma {:induction false} LeadingValueOfDecimal(n: nat, rest: string)
    ensures LeadingValue(Decimal(n) + rest, 0) == LeadingValue(rest, n)
  {
    if n < 10 {
      assert ([Digit(n)] + rest)[1..] == rest;
    } else {
      var d := Digit(n % 10);
      assert Decimal(n) + rest == Decimal(n / 10) + ([d] + rest);
      LeadingValueOfDecimal(n / 10, [d] + rest);
      assert ([d] + rest)[1..] == rest;
    }
  }

  function LongText(l: int): string {
    if l < 0 then "-" + Decimal(-l) else Decimal(l)
  }

  /** The digits still to be written. */
  function Digits(n: nat): string {
    if n == 0 then "" else Decimal(n)
  }

  lemma DigitsStep(n: nat, tail: string)
    requires n > 0
    ensures Digits(n) == Digits(n / 10) + [Digit(n % 10)]
    ensures Digits(n / 10) + ([Digit(n % 10)] + tail) == Digits(n) + tail
  {
    assert n < 10 ==> n / 10 == 0 && n % 10 == n;
    var a, c := Digits(n / 10), Digit(n % 10);
    assert a + ([c] + tail) == (a + [c]) + tail;
  }

  /** t with its end overwritten by d. */
  function Overwritten(t: string, d: string): string
    requires |d| <= |t|
  {
    t[..|t| - |d|] + d
  }

  /** What o becomes when log10 announced |places| places for l, and these bytes stood in them. */
  function Pushed(o: string, l: int, places: string): string
    requires l != 0 && RoomFor(o, l, places)
  {
    var t := Overwritten(o + places, Decimal(if l < 0 then -l else l));
    if l < 0 then t[|o| := '-'] else t
  }

  /** The digits start inside the buffer, and the sign has a place. */
  predicate RoomFor(o: string, l: int, places: string) {
    |Decimal(if l < 0 then -l else l)| <= |o| + |places| && places != ""
  }

  /** The decimal text is appended if and only if log10 announced the right number of places. */
  lemma PushedExactly(o: string, l: int, places: string)
    requires l != 0 && RoomFor(o, l, places)
    ensures Pushed(o, l, places) == o + LongText(l) <==> |places| == |LongText(l)|
  {
    hide Decimal;
    assert |Pushed(o, l, places)| == |o| + |places|;
    if |places| == |LongText(l)| {
      var d := Decimal(if l < 0 then -l else l);
      var t := o + places;
      assert t[..|t| - |d|] == o + places[..|places| - |d|];
    }
  }

  /** sb_push_long: the digits go into the places that log10 announced, from the right. */
  method PushLong(sb: StringBuilder, l: int, places: string)
    requires RoomFor(sb.contents, l, places)
    modifies sb
    ensures sb.contents == if l == 0 then old(sb.contents) + "0" else Pushed(old(sb.contents), l, places)
  {
    if l == 0 {
      sb.PushSv("0");
      return;
    }
    hide Decimal;
    var start := |sb.contents|;
    var neg := l < 0;
    sb.PushSv(places);
    FillDigits(sb, if neg then -l else l);
    if neg {
      sb.contents := sb.contents[start := '-'];
    }
  }

  method FillDigits(sb: StringBuilder, l: nat)
    requires l > 0 && |Decimal(l)| <= |sb.contents|
    modifies sb
    ensures sb.contents == Overwritten(old(sb.contents), Decimal(l))
  {
    hide Decimal;
    ghost var t, w := sb.contents, "";
    var n, pos := l, |sb.contents|;
    assert t[..pos] + w == t && Digits(n) + w == Decimal(l);
    while n != 0
      invariant 0 <= pos <= |t| && sb.contents == t[..pos] + w
      invariant Digits(n) + w == Decimal(l) && pos + |w| == |t|
    {
      DigitsStep(n, w);
      ReplaceLast(t, pos, w, Digit(n % 10));
      sb.contents := sb.contents[pos - 1 := Digit(n % 10)];
      w := [Digit(n % 10)] + w;
      pos := pos - 1;
      n := n / 10;
    }
    assert "" + w == w;
  }

  lemma ReplaceLast(t: string, pos: nat, w: string, c: char)
    requires 0 < pos <= |t|
    ensures (t[..pos] + w)[pos - 1 := c] == t[..pos - 1] + ([c] + w)
  {
  }

  // ---- sv_to_long and sv_to_int ----

  function Signed(l: int, neg: bool): int {
    if neg then -l else l
  }

  /** The loop of sv_to_long: a stray character gives 0, an overflow the limit. */
  function LongLoop(s: string, l: nat, neg: bool): int {
    if s == "" then Signed(l, neg)
    else if !IsDigit(s[0]) then 0
    else if l > (LONG_MAX - DigitValue(s[0])) / 10 then (if neg then LONG_MIN else LONG_MAX)
    else LongLoop(s[1..], l * 10 + DigitValue(s[0]), neg)
  }

  function LongOf(s: string): int {
    if s == "" then 0
    else if IsSign(s[0]) then (if |s| == 1 then 0 else LongLoop(s[1..], 0, s[0] == '-'))
    else LongLoop(s, 0, false)
  }

  predicate IsSign(c: char) {
    c == '-' || c == '+'
  }

  /** How far the loop gets. */
  function LoopEnd(s: string, l: nat): (n: nat)
    ensures n <= |s|
  {
    if s == "" || !IsDigit(s[0]) || l > (LONG_MAX - DigitValue(s[0])) / 10 then 0
    else 1 + LoopEnd(s[1..], l * 10 + DigitValue(s[0]))
  }

  /** Where *endptr points; an empty text leaves it alone, and a sign on its own points at the start. */
  function EndOf(s: string): Option<nat> {
    if s == "" then None
    else if IsSign(s[0]) then Some(if |s| == 1 then 0 else 1 + LoopEnd(s[1..], 0))
    else Some(LoopEnd(s, 0))
  }

  /** The C cast (int): the low 32 bits read as two's complement. */
  function ToInt32(l: int): int {
    var m := l % 0x1_0000_0000;
    if m > INT_MAX then m - 0x1_0000_0000 else m
  }

  function IntOf(s: string): int {
    ToInt32(LongOf(s))
  }

  method SvToLong(s: string) returns (r: int, end: Option<nat>)
    ensures r == LongOf(s) && end == EndOf(s)
  {
    if |s| == 0 {
      return 0, None;
    }
    var neg := s[0] == '-';
    var i := if s[0] == '-' || s[0] == '+' then 1 else 0;
    if i == |s| {
      return 0, Some(0);
    }
    var l: nat := 0;
    assert s[0..] == s;
    hide LongLoop, LoopEnd;
    while i < |s|
      invariant 0 <= i <= |s|
      invariant LongOf(s) == LongLoop(s[i..], l, neg) && EndOf(s) == Some(i + LoopEnd(s[i..], l))
    {
      LoopStep(s, i, l, neg);
      var ch := s[i];
      if ch < '0' || ch > '9' {
        return 0, Some(i);
      }
      var d := ch as int - '0' as int;
      if l > (LONG_MAX - d) / 10 {
        return if neg then LONG_MIN else LONG_MAX, Some(i);
      }
      l := l * 10 + d;
      i := i + 1;
    }
    LoopDone(l, neg);
    r, end := Signed(l, neg), Some(i);
  }

  lemma LoopStep(s: string, i: nat, l: nat, neg: bool)
    requires i < |s|
    ensures var v, e := LongLoop(s[i..], l, neg), LoopEnd(s[i..], l);
            if !IsDigit(s[i]) then v == 0 && e == 0
            else
              var d := DigitValue(s[i]);
              if l > (LONG_MAX - d) / 10 then v == (if neg then LONG_MIN else LONG_MAX) && e == 0
              else v == LongLoop(s[i + 1..], l * 10 + d, neg) && e == 1 + LoopEnd(s[i + 1..], l * 10 + d)
  {
    assert s[i..][1..] == s[i + 1..];
  }

  lemma LoopDone(l: nat, neg: bool)
    ensures LongLoop("", l, neg) == Signed(l, neg) && LoopEnd("", l) == 0
  {
  }

  // ---- what they return ----

  lemma {:induction false} LeadingGrows(s: string, acc: nat)
    ensures LeadingValue(s, acc) >= acc
  {
    if s != "" && IsDigit(s[0]) {
      LeadingGrows(s[1..], acc * 10 + DigitValue(s[0]));
    }
  }

  predicate AllDigits(s: string) {
    forall i :: 0 <= i < |s| ==> IsDigit(s[i])
  }

  lemma {:induction false} LoopReadsAll(s: string, l: nat, neg: bool)
    requires l <= LONG_MAX
    ensures LoopEnd(s, l) == |s| <==> AllDigits(s) && LeadingValue(s, l) <= LONG_MAX
    ensures LoopEnd(s, l) == |s| ==> LongLoop(s, l, neg) == Signed(LeadingValue(s, l), neg)
  {
    if s != "" {
      assert AllDigits(s) <==> IsDigit(s[0]) && AllDigits(s[1..]);
      if IsDigit(s[0]) {
        var more := l * 10 + DigitValue(s[0]);
        if more <= LONG_MAX {
          LoopReadsAll(s[1..], more, neg);
        } else {
          LeadingGrows(s[1..], more);
        }
      }
    }
  }

  /** All of the text is taken if and only if it is digits after an optional sign that fit; then it is the value. */
  lemma LongReadsAll(s: string)
    ensures var neg := s != "" && s[0] == '-';
            var digits := if s != "" && IsSign(s[0]) then s[1..] else s;
            && (EndOf(s) == Some(|s|) <==> digits != "" && AllDigits(digits) && LeadingValue(digits, 0) <= LONG_MAX)
            && (EndOf(s) == Some(|s|) ==> LongOf(s) == Signed(LeadingValue(digits, 0), neg))
  {
    if s != "" {
      LoopReadsAll(if IsSign(s[0]) then s[1..] else s, 0, s[0] == '-');
    }
  }

  lemma {:induction false} LongLoopOfDecimal(n: nat, rest: string, neg: bool)
    ensures LongLoop(Decimal(n) + rest, 0, neg) ==
            if n <= LONG_MAX then LongLoop(rest, n, neg) else if neg then LONG_MIN else LONG_MAX
  {
    if n < 10 {
      assert ([Digit(n)] + rest)[1..] == rest;
    } else {
      var d := Digit(n % 10);
      assert Decimal(n) + rest == Decimal(n / 10) + ([d] + rest);
      LongLoopOfDecimal(n / 10, [d] + rest, neg);
      assert ([d] + rest)[1..] == rest;
    }
  }

  function Saturated(n: nat): nat {
    if n <= LONG_MAX then n else LONG_MAX
  }

  lemma LongOfDecimal(n: nat)
    ensures LongOf(Decimal(n)) == Saturated(n)
  {
    LongLoopOfDecimal(n, "", false);
    assert Decimal(n) + "" == Decimal(n);
    assert IsDigit(Decimal(n)[0]);
  }

  /** A printed number is read back by sv_to_int exactly when it is an int; else the saturated low 32 bits are. */
  lemma IntOfDecimal(n: nat)
    ensures IntOf(Decimal(n)) == ToInt32(Saturated(n))
    ensures ToInt32(Saturated(n)) == n <==> n <= INT_MAX
  {
    LongOfDecimal(n);
  }
}
