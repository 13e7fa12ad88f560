/** maildir.c: a message's UID and flags live in its file name, <unique>;U=<uid>[,F=<flags>].eml. */
module Maildir {
  import opened Views
  import opened Decimals

  datatype Flags = Flags(seen: bool, deleted: bool, flagged: bool, replied: bool, draft: bool)

  const NO_FLAGS := Flags(false, false, false, false, false)

  /** The letters in the order maildir_filename writes them. */
  const LETTERS := "DFRST"

  predicate Has(f: Flags, c: char) {
    match c
    case 'S' => f.seen
    case 'T' => f.deleted
    case 'F' => f.flagged
    case 'R' => f.replied
    case 'D' => f.draft
    case _ => false
  }

  function FlagSet(f: Flags): set<char> {
    set c | c in LETTERS && Has(f, c)
  }

  /** The five-way switch used wherever a flag letter is set or cleared; other letters do nothing. */
  function WithFlag(f: Flags, c: char, on: bool): Flags {
    match c
    case 'S' => f.(seen := on)
    case 'T' => f.(deleted := on)
    case 'F' => f.(flagged := on)
    case 'R' => f.(replied := on)
    case 'D' => f.(draft := on)
    case _ => f
  }

  lemma HasSpec(f: Flags, c: char)
    ensures Has(f, c) ==> c in LETTERS
  {
    assert LETTERS == ['D', 'F', 'R', 'S', 'T'];
    assert LETTERS[0] == 'D' && LETTERS[1] == 'F' && LETTERS[2] == 'R' && LETTERS[3] == 'S' && LETTERS[4] == 'T';
  }

  lemma FlagSetSpec(f: Flags, c: char)
    ensures c in FlagSet(f) <==> Has(f, c)
  {
    HasSpec(f, c);
  }

  lemma FlagSetInjective(f: Flags, g: Flags)
    requires FlagSet(f) == FlagSet(g)
    ensures f == g
  {
    forall c ensures Has(f, c) == Has(g, c) {
      FlagSetSpec(f, c);
      FlagSetSpec(g, c);
    }
    SameFlags(f, g);
  }

  lemma SameFlags(f: Flags, g: Flags)
    requires forall c :: Has(f, c) == Has(g, c)
    ensures f == g
  {
    assert Has(f, 'S') == Has(g, 'S') && Has(f, 'T') == Has(g, 'T') && Has(f, 'F') == Has(g, 'F');
    assert Has(f, 'R') == Has(g, 'R') && Has(f, 'D') == Has(g, 'D');
  }

  lemma WithFlagHas(f: Flags, c: char, on: bool, x: char)
    ensures Has(WithFlag(f, c, on), x) == if x == c && c in LETTERS then on else Has(f, x)
  {
    HasSpec(Flags(true, true, true, true, true), x);
  }

  /** What the switch does, as a set: exactly the one letter goes in or out. */
  lemma WithFlagSet(f: Flags, c: char, on: bool)
    ensures FlagSet(WithFlag(f, c, on)) ==
            if on then FlagSet(f) + (if c in LETTERS then {c} else {}) else FlagSet(f) - {c}
  {
    forall x ensures x in FlagSet(WithFlag(f, c, on)) <==> (if x == c && c in LETTERS then on else x in FlagSet(f)) {
      WithFlagHas(f, c, on, x);
      FlagSetSpec(f, x);
      FlagSetSpec(WithFlag(f, c, on), x);
    }
    FlagSetSpec(f, c);
    HasSpec(f, c);
  }

  // ---- reading a name ----

  /** ";KEY=" or ",KEY=" stands at i. */
  predicate KeyAt(name: string, key: string, i: nat) {
    i + |key| + 1 < |name| && (name[i] == ';' || name[i] == ',')
    && name[i + 1..i + 1 + |key|] == key && name[i + 1 + |key|] == '='
  }

  function ValueAt(name: string, start: nat): string
    requires start <= |name|
    decreases |name| - start
  {
    if start == |name| || name[start] == ',' || name[start] == '.' then ""
    else [name[start]] + ValueAt(name, start + 1)
  }

  function FirstValue(name: string, key: string, i: nat): string
    decreases |name| - i
  {
    if i + |key| + 1 >= |name| then ""
    else if KeyAt(name, key, i) then ValueAt(name, i + 2 + |key|)
    else FirstValue(name, key, i + 1)
  }

  /** The value of the first KEY= section at or after the first ';'. */
  function KeyValue(name: string, key: string): string {
    match Find(name, ";")
    case None => ""
    case Some(i) => FirstValue(name, key, i)
  }

  function ParseUid(name: string): nat {
    LeadingValue(KeyValue(name, "U"), 0)
  }

  function ParseFlags(name: string): Flags {
    var v := KeyValue(name, "F");
    Flags('S' in v, 'T' in v, 'F' in v, 'R' in v, 'D' in v)
  }

  function FlagsBasename(name: string): string {
    match Find(name, ";")
    case Some(i) => if i <= |name| then name[..i] else name
    case None =>
      if |name| >= 4 && name[|name| - 4..] == ".eml" then name[..|name| - 4] else name
  }

  /** Without a ';' the unique part is the name less its ".eml". */
  lemma PlainName(base: string)
    requires ';' !in base
    ensures FlagsBasename(base + ".eml") == base
    ensures |base| < 4 || base[|base| - 4..] != ".eml" ==> FlagsBasename(base) == base
  {
    FindCharNone(base, ';');
    FindCharNone(base + ".eml", ';');
    var name := base + ".eml";
    assert name[|name| - 4..] == ".eml" && name[..|name| - 4] == base;
  }

  // ---- writing a name ----

  function FlagLetters(f: Flags): string {
    Chosen(f, LETTERS)
  }

  function Chosen(f: Flags, order: string): string {
    if order == "" then ""
    else if Has(f, order[0]) then [order[0]] + Chosen(f, order[1..])
    else Chosen(f, order[1..])
  }

  function MaildirFilename(base: string, uid: nat, f: Flags): string {
    base + ";" + ("U=" + Decimal(uid) + FlagSection(f) + ".eml")
  }

  function FlagSection(f: Flags): string {
    if FlagLetters(f) == "" then "" else ",F=" + FlagLetters(f)
  }

  /** Marks one flag in the name; UID and unique part stay. */
  function SetFlag(name: string, c: char): string {
    MaildirFilename(FlagsBasename(name), ParseUid(name), WithFlag(ParseFlags(name), c, true))
  }

  // ---- the loops ----

  /** The inner loop of find_kv: up to the next comma or dot. */
  method ValueFrom(name: string, start: nat) returns (v: string)
    requires start <= |name|
    ensures v == ValueAt(name, start)
  {
    var end := start;
    while end < |name| && name[end] != ',' && name[end] != '.'
      invariant start <= end <= |name|
      invariant ValueAt(name, start) == name[start..end] + ValueAt(name, end)
    {
      assert name[start..end + 1] == name[start..end] + [name[end]];
      end := end + 1;
    }
    v := name[start..end];
  }

  method FindKv(name: string, key: string) returns (v: string)
    ensures v == KeyValue(name, key)
  {
    var colon := SvFind(name, ";");
    if colon.None? {
      return "";
    }
    var i := colon.value;
    while i + |key| + 1 < |name|
      invariant FirstValue(name, key, i) == KeyValue(name, key)
      decreases |name| - i
    {
      if KeyAt(name, key, i) {
        v := ValueFrom(name, i + 2 + |key|);
        return;
      }
      i := i + 1;
    }
    v := "";
  }

  method ReadUid(name: string) returns (uid: nat)
    ensures uid == ParseUid(name)
  {
    var v := FindKv(name, "U");
    uid := 0;
    var i := 0;
    while i < |v|
      invariant 0 <= i <= |v|
      invariant ParseUid(name) == LeadingValue(v[i..], uid)
    {
      var c := v[i];
      if c < '0' || c > '9' {
        return;
      }
      assert v[i..][1..] == v[i + 1..];
      uid := uid * 10 + (c as int - '0' as int);
      i := i + 1;
    }
  }

  method ReadFlags(name: string) returns (f: Flags)
    ensures f == ParseFlags(name)
  {
    f := NO_FLAGS;
    var v := FindKv(name, "F");
    var i := 0;
    while i < |v|
      invariant 0 <= i <= |v|
      invariant f == Flags('S' in v[..i], 'T' in v[..i], 'F' in v[..i], 'R' in v[..i], 'D' in v[..i])
    {
      assert v[..i + 1] == v[..i] + [v[i]];
      match v[i] {
        case 'S' => f := f.(seen := true);
        case 'T' => f := f.(deleted := true);
        case 'F' => f := f.(flagged := true);
        case 'R' => f := f.(replied := true);
        case 'D' => f := f.(draft := true);
        case _ =>
      }
      i := i + 1;
    }
    assert v[..i] == v;
  }

  /** maildir_filename fills an eight-byte array with the letters in fixed order. */
  method WriteFilename(base: string, uid: nat, f: Flags) returns (name: string)
    ensures name == MaildirFilename(base, uid, f)
  {
    var chars := new char[8];
    var n := 0;
    assert LETTERS[1..][1..] == LETTERS[2..] && LETTERS[2..][1..] == LETTERS[3..];
    assert LETTERS[3..][1..] == LETTERS[4..] && LETTERS[4..][1..] == "";
    assert chars[..0] + FlagLetters(f) == FlagLetters(f);
    n := AddLetter(chars, n, f.draft, f, LETTERS);
    n := AddLetter(chars, n, f.flagged, f, LETTERS[1..]);
    n := AddLetter(chars, n, f.replied, f, LETTERS[2..]);
    n := AddLetter(chars, n, f.seen, f, LETTERS[3..]);
    n := AddLetter(chars, n, f.deleted, f, LETTERS[4..]);
    assert chars[..n] == chars[..n] + Chosen(f, "") == FlagLetters(f);
    Printed(base, uid, f);
    if n > 0 {
      name := base + ";U=" + Decimal(uid) + ",F=" + chars[..n] + ".eml";
    } else {
      name := base + ";U=" + Decimal(uid) + ".eml";
    }
  }

  lemma Printed(base: string, uid: nat, f: Flags)
    ensures MaildirFilename(base, uid, f) ==
            if FlagLetters(f) != "" then base + ";U=" + Decimal(uid) + ",F=" + FlagLetters(f) + ".eml"
            else base + ";U=" + Decimal(uid) + ".eml"
  {
  }

  /** One conditional store; the letters still to come complete what is in the array. */
  method AddLetter(chars: array<char>, n: nat, on: bool, ghost f: Flags, order: string) returns (m: nat)
    requires n < chars.Length && order != "" && on == Has(f, order[0])
    modifies chars
    ensures n <= m <= n + 1
    ensures chars[..m] + Chosen(f, order[1..]) == old(chars[..n]) + Chosen(f, order)
  {
    m := n;
    if on {
      chars[n] := order[0];
      m := n + 1;
      assert chars[..m] == old(chars[..n]) + [order[0]];
    }
  }

  // ---- the codec ----

  lemma {:induction false} ValueEnds(name: string, start: nat, v: string)
    requires start + |v| < |name| && name[start..start + |v|] == v
    requires ',' !in v && '.' !in v && (name[start + |v|] == ',' || name[start + |v|] == '.')
    ensures ValueAt(name, start) == v
    decreases |v|
  {
    if v != "" {
      assert name[start] == v[0];
      assert name[start + 1..start + |v|] == v[1..];
      ValueEnds(name, start + 1, v[1..]);
    }
  }

  lemma {:induction false} SkipTo(name: string, key: string, i: nat, j: nat)
    requires i <= j && forall k: nat :: i <= k < j ==> !KeyAt(name, key, k)
    ensures j + |key| + 1 < |name| ==> FirstValue(name, key, i) == FirstValue(name, key, j)
    ensures j + |key| + 1 >= |name| ==> FirstValue(name, key, i) == ""
    decreases j - i
  {
    if i < j && i + |key| + 1 < |name| {
      SkipTo(name, key, i + 1, j);
    }
  }

  /** The printed name cut at the places where the parsers look. */
  lemma NameParts(base: string, uid: nat, f: Flags)
    ensures var name := MaildirFilename(base, uid, f); var b, d := |base|, |Decimal(uid)|;
            && |name| == b + 7 + d + |FlagSection(f)|
            && name[..b] == base && name[b] == ';' && name[b + 1] == 'U' && name[b + 2] == '='
            && name[b + 3..b + 3 + d] == Decimal(uid)
            && name[b + 3 + d..] == FlagSection(f) + ".eml"
            && (name[b + 3 + d] == ',' || name[b + 3 + d] == '.')
  {
    hide Decimal, FlagLetters;
    var d, tail := Decimal(uid), FlagSection(f) + ".eml";
    assert tail[0] == ',' || tail[0] == '.';
    Joined(base, d, FlagSection(f));
    hide MaildirFilename, FlagSection;
    CutInThree(base + ";U=", d, tail);
    CutHead(base, d + tail);
  }

  lemma Joined(base: string, d: string, s: string)
    ensures base + ";" + ("U=" + d + s + ".eml") == base + ";U=" + (d + (s + ".eml"))
  {
    assert "U=" + d + s + ".eml" == "U=" + (d + (s + ".eml"));
    assert ";" + "U=" == ";U=";
    Assoc(base, ";", "U=" + (d + (s + ".eml")));
    Assoc(";", "U=", d + (s + ".eml"));
    Assoc(base, ";U=", d + (s + ".eml"));
  }

  lemma CutInThree(a: string, d: string, tail: string)
    ensures var s := a + (d + tail);
            s[..|a|] == a && s[|a|..|a| + |d|] == d && s[|a| + |d|..] == tail
  {
    var s := a + (d + tail);
    assert s[|a|..] == d + tail;
    assert (d + tail)[|d|..] == tail;
  }

  lemma CutHead(base: string, rest: string)
    ensures var s, b := base + ";U=" + rest, |base|;
            s[..b] == base && s[b] == ';' && s[b + 1] == 'U' && s[b + 2] == '='
  {
    assert base + ";U=" + rest == base + (";U=" + rest);
  }

  /** The section the printer wrote, read from where it starts. */
  lemma UidSection(base: string, uid: nat, f: Flags)
    ensures FirstValue(MaildirFilename(base, uid, f), "U", |base|) == Decimal(uid)
  {
    var name := MaildirFilename(base, uid, f);
    NameParts(base, uid, f);
    hide MaildirFilename, Decimal, FlagSection;
    var b := |base|;
    assert name[b + 1..b + 2] == "U";
    assert KeyAt(name, "U", b);
    ValueEnds(name, b + 3, Decimal(uid));
  }

  lemma UidRoundTrip(base: string, uid: nat, f: Flags)
    requires ';' !in base
    ensures Find(MaildirFilename(base, uid, f), ";") == Some(|base|)
    ensures ParseUid(MaildirFilename(base, uid, f)) == uid
  {
    FindChar(base, ';', "U=" + Decimal(uid) + FlagSection(f) + ".eml");
    NameParts(base, uid, f);
    UidSection(base, uid, f);
    LeadingValueOfDecimal(uid, "");
    assert Decimal(uid) + "" == Decimal(uid);
  }

  /** No F= section starts before the end of the UID. */
  lemma NoFlagsBefore(base: string, uid: nat, f: Flags, k: nat)
    requires |base| <= k < |base| + 3 + |Decimal(uid)|
    ensures !KeyAt(MaildirFilename(base, uid, f), "F", k)
  {
    var name := MaildirFilename(base, uid, f);
    NameParts(base, uid, f);
    var b, d := |base|, |Decimal(uid)|;
    assert name[b + 1..b + 2] == "U";
    if k >= b + 3 {
      assert name[k] == name[b + 3..b + 3 + d][k - b - 3];
    }
  }

  lemma NoFlagsAfter(name: string, c: nat)
    requires c <= |name| && name[c..] == ".eml"
    ensures forall k: nat :: c <= k ==> !KeyAt(name, "F", k)
  {
    var tail := name[c..];
    assert forall k: nat :: c <= k < |name| ==> name[k] == tail[k - c];
  }

  lemma FlagsInSection(base: string, uid: nat, f: Flags)
    ensures FirstValue(MaildirFilename(base, uid, f), "F", |base|) == FlagLetters(f)
  {
    var name, l := MaildirFilename(base, uid, f), FlagLetters(f);
    NameParts(base, uid, f);
    var b, c := |base|, |base| + 3 + |Decimal(uid)|;
    forall k: nat | b <= k < c ensures !KeyAt(name, "F", k) {
      NoFlagsBefore(base, uid, f, k);
    }
    LettersDecode(f);
    assert name[c..] == FlagSection(f) + ".eml" && |name| >= c;
    hide MaildirFilename, Decimal, FlagLetters, KeyAt, FirstValue;
    if l == "" {
      NoFlagsAfter(name, c);
      SkipTo(name, "F", b, |name|);
    } else {
      SkipTo(name, "F", b, c);
      FlagsValue(name, c, l);
    }
  }

  lemma FlagsRoundTrip(base: string, uid: nat, f: Flags)
    requires ';' !in base
    ensures KeyValue(MaildirFilename(base, uid, f), "F") == FlagLetters(f)
  {
    UidRoundTrip(base, uid, f);
    FlagsInSection(base, uid, f);
  }

  lemma FlagsValue(name: string, c: nat, l: string)
    requires c <= |name| && name[c..] == ",F=" + l + ".eml" && ',' !in l && '.' !in l
    ensures FirstValue(name, "F", c) == l
  {
    var tail := name[c..];
    assert name[c] == tail[0] && name[c + 1] == tail[1] && name[c + 2] == tail[2];
    assert name[c + 1..c + 2] == "F";
    assert name[c + 3..c + 3 + |l|] == tail[3..3 + |l|] == l;
    assert name[c + 3 + |l|] == tail[3 + |l|] == '.';
    ValueEnds(name, c + 3, l);
  }

  lemma LettersDecode(f: Flags)
    ensures var v := FlagLetters(f); Flags('S' in v, 'T' in v, 'F' in v, 'R' in v, 'D' in v) == f
    ensures ',' !in FlagLetters(f) && '.' !in FlagLetters(f)
  {
    forall c ensures c in FlagLetters(f) <==> Has(f, c) {
      ChosenMembers(f, LETTERS, c);
      HasSpec(f, c);
    }
  }

  lemma {:induction false} ChosenMembers(f: Flags, order: string, c: char)
    ensures c in Chosen(f, order) <==> c in order && Has(f, c)
  {
    if order != "" {
      ChosenMembers(f, order[1..], c);
      assert order == [order[0]] + order[1..];
    }
  }

  /** The parsers invert the printer on every ';'-free unique part. */
  lemma CodecRoundTrip(base: string, uid: nat, f: Flags)
    requires ';' !in base
    ensures var name := MaildirFilename(base, uid, f);
            ParseUid(name) == uid && ParseFlags(name) == f && FlagsBasename(name) == base
  {
    UidRoundTrip(base, uid, f);
    FlagsRoundTrip(base, uid, f);
    LettersDecode(f);
    NameParts(base, uid, f);
  }

  lemma BasenameHasNoSemicolon(name: string)
    ensures ';' !in FlagsBasename(name)
  {
    FindCharNone(name, ';');
    FindSpec(name, ";");
    if Find(name, ";").Some? {
      var i := Find(name, ";").value;
      forall k | 0 <= k < i ensures name[k] != ';' {
        assert !OccursAt(name, ";", k);
        assert name[k..k + 1] == [name[k]];
      }
    }
  }

  /** The unique part comes back exactly when it has no ';'. */
  lemma BasenameInvertsExactly(base: string, uid: nat, f: Flags)
    ensures FlagsBasename(MaildirFilename(base, uid, f)) == base <==> ';' !in base
  {
    if ';' !in base {
      CodecRoundTrip(base, uid, f);
    }
    BasenameHasNoSemicolon(MaildirFilename(base, uid, f));
  }

  // ---- unique parts that carry sections of their own ----

  /** A KEY= section stands at or after the first ';' of the unique part. */
  predicate Carries(base: string, key: string) {
    match Find(base, ";")
    case None => false
    case Some(i) => exists k: nat :: i <= k < |base| && KeyAt(base, key, k)
  }

  /** The printer's own sections start after base and its ';'. */
  lemma PrintedAfter(base: string, uid: nat, f: Flags) returns (tail: string)
    ensures MaildirFilename(base, uid, f) == base + (";" + tail)
  {
    tail := "U=" + Decimal(uid) + FlagSection(f) + ".eml";
  }

  /** No section straddles the end of base. */
  lemma CarriedHere(base: string, key: string, tail: string, k: nat)
    requires |key| == 1 && key != ";" && k < |base|
    ensures KeyAt(base + (";" + tail), key, k) <==> KeyAt(base, key, k)
  {
    var name := base + (";" + tail);
    assert name[|base|] == ';';
    assert k + 1 < |name| ==> name[k + 1..k + 2] == [name[k + 1]];
    assert k + 1 < |base| ==> base[k + 1..k + 2] == [base[k + 1]];
  }

  /** The first section is the same one in base and in the whole name. */
  lemma {:induction false} FirstCarried(base: string, key: string, tail: string, i: nat, k: nat) returns (j: nat)
    requires |key| == 1 && key != ";" && i <= k < |base| && KeyAt(base, key, k)
    ensures j + 3 <= |base| && FirstValue(base, key, i) == ValueAt(base, j + 3)
    ensures FirstValue(base + (";" + tail), key, i) == ValueAt(base + (";" + tail), j + 3)
    decreases k - i
  {
    CarriedHere(base, key, tail, i);
    if KeyAt(base, key, i) {
      j := i;
    } else {
      j := FirstCarried(base, key, tail, i + 1, k);
    }
  }

  /** A value that reaches the end of base goes on into what follows. */
  lemma {:induction false} ValueGoesOn(base: string, more: string, start: nat)
    requires start <= |base|
    ensures var v := ValueAt(base, start);
            if start + |v| == |base| then ValueAt(base + more, start) == v + ValueAt(base + more, |base|)
            else start + |v| < |base| && ValueAt(base + more, start) == v
    decreases |base| - start
  {
    if start < |base| && base[start] != ',' && base[start] != '.' {
      ValueGoesOn(base, more, start + 1);
      Assoc([base[start]], ValueAt(base, start + 1), ValueAt(base + more, |base|));
    }
    if start == |base| {
      assert "" + ValueAt(base + more, start) == ValueAt(base + more, start);
    }
  }

  /** A carried section is read with at most the printer's ";U=" and UID behind its value. */
  lemma CarriedValue(base: string, key: string, uid: nat, f: Flags)
    requires |key| == 1 && key != ";" && Carries(base, key)
    ensures var v := KeyValue(base, key);
            KeyValue(MaildirFilename(base, uid, f), key) in {v, v + (";U=" + Decimal(uid))}
  {
    var tail := PrintedAfter(base, uid, f);
    BehindBase(base, uid, f);
    hide MaildirFilename, Decimal, Carries, KeyAt, KeyValue, ValueAt;
    CarriedInto(base, key, tail);
  }

  lemma CarriedInto(base: string, key: string, tail: string)
    requires |key| == 1 && key != ";" && Carries(base, key)
    ensures var name, v := base + (";" + tail), KeyValue(base, key);
            KeyValue(name, key) == v || KeyValue(name, key) == v + ValueAt(name, |base|)
  {
    FindPrefix(base, ";" + tail, ";");
    var i := Find(base, ";").value;
    var k: nat :| i <= k < |base| && KeyAt(base, key, k);
    hide KeyAt, FirstValue, ValueAt, Find;
    CarriedFrom(base, key, tail, i, k);
  }

  lemma CarriedFrom(base: string, key: string, tail: string, i: nat, k: nat)
    requires |key| == 1 && key != ";" && i <= k < |base| && KeyAt(base, key, k)
    ensures var name, v := base + (";" + tail), FirstValue(base, key, i);
            FirstValue(name, key, i) == v || FirstValue(name, key, i) == v + ValueAt(name, |base|)
  {
    hide KeyAt, FirstValue, ValueAt;
    var j := FirstCarried(base, key, tail, i, k);
    ValueGoesOn(base, ";" + tail, j + 3);
  }

  /** What a value that reaches the end of base picks up. */
  lemma BehindBase(base: string, uid: nat, f: Flags)
    ensures ValueAt(MaildirFilename(base, uid, f), |base|) == ";U=" + Decimal(uid)
  {
    var name := MaildirFilename(base, uid, f);
    NameParts(base, uid, f);
    hide MaildirFilename, Decimal, FlagSection;
    var b, d := |base|, Decimal(uid);
    var v := ";U=" + d;
    assert name[b..b + |v|] == v;
    ValueEnds(name, b, v);
  }

  /** Without one, the printer's section is the first. */
  lemma NotCarried(base: string, key: string, uid: nat, f: Flags)
    requires |key| == 1 && key != ";" && !Carries(base, key)
    ensures var name := MaildirFilename(base, uid, f); KeyValue(name, key) == FirstValue(name, key, |base|)
  {
    var name := MaildirFilename(base, uid, f);
    var tail := PrintedAfter(base, uid, f);
    FindCharNone(base, ';');
    NameParts(base, uid, f);
    if ';' in base {
      FindPrefix(base, ";" + tail, ";");
      var i := Find(base, ";").value;
      FindSpec(base, ";");
      forall k: nat | i <= k < |base| ensures !KeyAt(name, key, k) {
        CarriedHere(base, key, tail, k);
      }
      SkipTo(name, key, i, |base|);
    } else {
      UidRoundTrip(base, uid, f);
    }
  }

  lemma {:induction false} LeadingStops(v: string, more: string, acc: nat)
    requires more == "" || !IsDigit(more[0])
    ensures LeadingValue(v + more, acc) == LeadingValue(v, acc)
  {
    if v == "" {
      assert v + more == more;
    } else if IsDigit(v[0]) {
      assert (v + more)[1..] == v[1..] + more;
      LeadingStops(v[1..], more, acc * 10 + DigitValue(v[0]));
    }
  }

  /** The UID read back is the one carried in the unique part if there is one, else the one printed. */
  lemma UidReadBack(base: string, uid: nat, f: Flags)
    ensures ParseUid(MaildirFilename(base, uid, f)) == if Carries(base, "U") then ParseUid(base) else uid
  {
    if Carries(base, "U") {
      CarriedValue(base, "U", uid, f);
      LeadingStops(KeyValue(base, "U"), ";U=" + Decimal(uid), 0);
    } else {
      NotCarried(base, "U", uid, f);
      UidSection(base, uid, f);
      LeadingValueOfDecimal(uid, "");
      assert Decimal(uid) + "" == Decimal(uid);
    }
  }

  /** Every UID is read back if and only if the unique part carries no U= section. */
  lemma UidReadsBackExactly(base: string, f: Flags)
    ensures (forall uid: nat :: ParseUid(MaildirFilename(base, uid, f)) == uid) <==> !Carries(base, "U")
  {
    hide ParseUid, MaildirFilename, Carries;
    forall uid: nat
      ensures ParseUid(MaildirFilename(base, uid, f)) == if Carries(base, "U") then ParseUid(base) else uid
    {
      UidReadBack(base, uid, f);
    }
    var other := ParseUid(base) + 1;
    assert ParseUid(MaildirFilename(base, other, f)) == if Carries(base, "U") then ParseUid(base) else other;
  }

  /** The flags read back are those carried in the unique part if there are any, else those printed. */
  lemma FlagsReadBack(base: string, uid: nat, f: Flags)
    ensures ParseFlags(MaildirFilename(base, uid, f)) == if Carries(base, "F") then ParseFlags(base) else f
  {
    if Carries(base, "F") {
      CarriedValue(base, "F", uid, f);
      var d, more := Decimal(uid), ";U=" + Decimal(uid);
      assert forall c :: c in d ==> IsDigit(c);
      assert forall c :: c in more ==> c == ';' || c == 'U' || c == '=' || c in d;
      assert forall c :: c in LETTERS ==> c !in more;
    } else {
      NotCarried(base, "F", uid, f);
      FlagsInSection(base, uid, f);
      LettersDecode(f);
    }
  }

  /** Every flag set is read back if and only if the unique part carries no F= section. */
  lemma FlagsReadBackExactly(base: string, uid: nat)
    ensures (forall f :: ParseFlags(MaildirFilename(base, uid, f)) == f) <==> !Carries(base, "F")
  {
    hide ParseFlags, MaildirFilename, Carries;
    forall f ensures ParseFlags(MaildirFilename(base, uid, f)) == if Carries(base, "F") then ParseFlags(base) else f {
      FlagsReadBack(base, uid, f);
    }
    var g := ParseFlags(base);
    var other := g.(seen := !g.seen);
    assert ParseFlags(MaildirFilename(base, uid, other)) == if Carries(base, "F") then g else other;
  }

  /** A host name that ends in a U= section decides the UID that is read back. */
  lemma ForgedUidWins(host: string, forged: nat, uid: nat, f: Flags)
    requires ';' !in host
    ensures ParseUid(MaildirFilename(host + ";U=" + Decimal(forged), uid, f)) == forged
  {
    var base := host + ";U=" + Decimal(forged);
    var b, d := |host|, |Decimal(forged)|;
    assert base == host + ";" + ("U=" + Decimal(forged));
    FindChar(host, ';', "U=" + Decimal(forged));
    assert base[b + 1..b + 2] == "U" && base[b + 3..] == Decimal(forged);
    assert KeyAt(base, "U", b);
    UidReadBack(base, uid, f);
    ValueAtEnd(base, b + 3);
    LeadingValueOfDecimal(forged, "");
    assert Decimal(forged) + "" == Decimal(forged);
  }

  lemma {:induction false} ValueAtEnd(base: string, start: nat)
    requires start <= |base| && ',' !in base[start..] && '.' !in base[start..]
    ensures ValueAt(base, start) == base[start..]
    decreases |base| - start
  {
    if start < |base| {
      assert base[start..] == [base[start]] + base[start + 1..];
      ValueAtEnd(base, start + 1);
    }
  }

  /** A host name that ends in ";F=T" makes every message delivered under it read as \Deleted. */
  lemma ForgedDeletion(host: string, uid: nat)
    requires ';' !in host
    ensures ParseFlags(MaildirFilename(host + ";F=T", uid, NO_FLAGS)).deleted
  {
    var base, b := host + ";F=T", |host|;
    assert base == host + ";" + "F=T";
    FindChar(host, ';', "F=T");
    assert base[b + 1..b + 2] == "F" && base[b + 3..] == "T";
    assert KeyAt(base, "F", b);
    FlagsReadBack(base, uid, NO_FLAGS);
    ValueAtEnd(base, b + 3);
  }

  // ---- set_flag, on every name ----

  lemma SetFlagParts(name: string, c: char)
    ensures var r := SetFlag(name, c);
            && ParseUid(r) == ParseUid(name) && FlagsBasename(r) == FlagsBasename(name)
            && ParseFlags(r) == WithFlag(ParseFlags(name), c, true)
  {
    BasenameHasNoSemicolon(name);
    CodecRoundTrip(FlagsBasename(name), ParseUid(name), WithFlag(ParseFlags(name), c, true));
  }

  /** UID and unique part stay and exactly the one flag is turned on. */
  lemma SetFlagSpec(name: string, c: char)
    ensures var r := SetFlag(name, c);
            && ParseUid(r) == ParseUid(name) && FlagsBasename(r) == FlagsBasename(name)
            && FlagSet(ParseFlags(r)) == FlagSet(ParseFlags(name)) + (if c in LETTERS then {c} else {})
  {
    SetFlagParts(name, c);
    WithFlagSet(ParseFlags(name), c, true);
  }

  lemma WithFlagTwice(f: Flags, c: char, d: char)
    ensures WithFlag(WithFlag(f, c, true), d, true) == WithFlag(WithFlag(f, d, true), c, true)
    ensures WithFlag(WithFlag(f, c, true), c, true) == WithFlag(f, c, true)
  {
    forall x ensures Has(WithFlag(WithFlag(f, c, true), d, true), x) == Has(WithFlag(WithFlag(f, d, true), c, true), x)
      ensures Has(WithFlag(WithFlag(f, c, true), c, true), x) == Has(WithFlag(f, c, true), x)
    {
      WithFlagHas(f, c, true, x);
      WithFlagHas(f, d, true, x);
      WithFlagHas(WithFlag(f, c, true), d, true, x);
      WithFlagHas(WithFlag(f, d, true), c, true, x);
      WithFlagHas(WithFlag(f, c, true), c, true, x);
    }
    SameFlags(WithFlag(WithFlag(f, c, true), d, true), WithFlag(WithFlag(f, d, true), c, true));
    SameFlags(WithFlag(WithFlag(f, c, true), c, true), WithFlag(f, c, true));
  }

  /** An assertion of tprintf stops flags_basename on a name whose unique part is empty. */
  predicate BasenameAborts(name: string) {
    name == ".eml" || (name != "" && name[0] == ';')
  }

  lemma BasenameAbortsExactly(name: string)
    ensures BasenameAborts(name) <==> name != "" && FlagsBasename(name) == ""
  {
    FindSpec(name, ";");
    FindCharNone(name, ';');
    if Find(name, ";").Some? {
      var i := Find(name, ";").value;
      assert name[i..i + 1] == ";";
      if name[0] == ';' {
        assert name[0..1] == ";";
        assert i == 0;
      }
    }
  }

  lemma SetFlagIdempotent(name: string, c: char)
    ensures SetFlag(SetFlag(name, c), c) == SetFlag(name, c)
  {
    SetFlagParts(name, c);
    WithFlagTwice(ParseFlags(name), c, c);
  }

  lemma SetFlagCommutes(name: string, c: char, d: char)
    ensures SetFlag(SetFlag(name, c), d) == SetFlag(SetFlag(name, d), c)
  {
    SetFlagParts(name, c);
    SetFlagParts(name, d);
    WithFlagTwice(ParseFlags(name), c, d);
  }

  // ---- message names ----

  /** A name the server itself wrote: it prints back to itself, and its UID is at least 1. */
  predicate WellFormed(name: string) {
    ParseUid(name) >= 1 && FlagsBasename(name) != ""
    && name == MaildirFilename(FlagsBasename(name), ParseUid(name), ParseFlags(name))
  }

  /** The server's test for a message when it reads a directory. */
  predicate IsMessage(name: string) {
    Find(name, ".eml").Some?
  }

  lemma TailHasNoSemicolon(uid: nat, f: Flags)
    ensures ';' !in "U=" + Decimal(uid) + FlagSection(f) + ".eml"
  {
    var d, l := Decimal(uid), FlagLetters(f);
    assert ';' !in d;
    forall c | c in l ensures c in LETTERS { ChosenMembers(f, LETTERS, c); }
  }

  /** A unique part that is empty or has a ';' does not come back, so the name is none the server would print. */
  lemma NotWellFormed(base: string, uid: nat, f: Flags)
    requires base == "" || ';' in base
    ensures !WellFormed(MaildirFilename(base, uid, f))
  {
    var n := MaildirFilename(base, uid, f);
    if base == "" {
      BasenameInvertsExactly(base, uid, f);
    } else {
      var b := FlagsBasename(n);
      var u, g := ParseUid(n), ParseFlags(n);
      BasenameHasNoSemicolon(n);
      TailHasNoSemicolon(u, g);
      TailHasNoSemicolon(uid, f);
      OneSemicolon(b, "U=" + Decimal(u) + FlagSection(g) + ".eml", base, "U=" + Decimal(uid) + FlagSection(f) + ".eml");
    }
  }

  lemma OneSemicolon(a: string, x: string, b: string, y: string)
    requires ';' !in a && ';' !in x && ';' in b
    ensures a + ";" + x != b + ";" + y
  {
    var s, t := a + ";" + x, b + ";" + y;
    var i :| 0 <= i < |b| && b[i] == ';';
    assert t[i] == ';' && t[|b|] == ';';
    assert forall k :: 0 <= k < |s| && s[k] == ';' ==> k == |a|;
  }

  lemma PrintedIsWellFormed(base: string, uid: nat, f: Flags)
    requires base != "" && ';' !in base && uid >= 1
    ensures WellFormed(MaildirFilename(base, uid, f)) && IsMessage(MaildirFilename(base, uid, f))
  {
    CodecRoundTrip(base, uid, f);
    WellFormedIsMessage(MaildirFilename(base, uid, f));
  }

  lemma WellFormedIsMessage(name: string)
    requires WellFormed(name)
    ensures IsMessage(name)
  {
    assert name[|name| - 4..] == ".eml";
    assert OccursAt(name, ".eml", |name| - 4);
    FindSpec(name, ".eml");
  }

  /** Two well-formed names with one UID, unique part and flag set are one name. */
  lemma WellFormedNameIsUnique(a: string, b: string)
    requires WellFormed(a) && WellFormed(b)
    requires ParseUid(a) == ParseUid(b) && FlagsBasename(a) == FlagsBasename(b) && ParseFlags(a) == ParseFlags(b)
    ensures a == b
  {
  }
}
