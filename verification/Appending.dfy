/** imap.c: APPEND from its argument line on, with the literal read from the connection. */
module Appending {
  import opened Views
  import opened Decimals
  import opened BufferedIO
  import opened Maildir
  import opened ImapFlags
  import opened Directory
  import opened Listings
  import opened Mailboxes
  import opened Meanings
  import opened TempAlloc

  const CRLF := "\r\n"

  datatype Refusal = NoLiteral | BadSize | OpenQuote | NoName | OpenFlagList

  /** Aborted: an assertion of tprintf stops the program, as for an APPEND without arguments. */
  datatype Request = Aborted | Refused(why: Refusal) | Literal(mailbox: string, rest: string, size: nat)

  /** The mailbox name and what stands between it and the literal. */
  function NameAndRest(head: string): Option<(string, string)> {
    if head != "" && head[0] == '\"' then
      match Find(head[1..], "\"")
      case None => None
      case Some(i) => if i < |head| - 1 then Some((head[1..i + 1], Trim(head[i + 2..]))) else None
    else
      var (name, rest) := Split(head, ' ');
      Some((Trim(name), Trim(rest)))
  }

  predicate OpenList(rest: string) {
    rest != "" && rest[0] == '(' && ')' !in rest
  }

  function RequestOf(head: string, size: int): Request {
    if size < 0 then Refused(BadSize)
    else match NameAndRest(head)
      case None => Refused(OpenQuote)
      case Some((name, rest)) =>
        if name == "" then Refused(NoName)
        else if OpenList(rest) then Refused(OpenFlagList)
        else Literal(name, rest, size)
  }

  /** The copied argument line, once it is known to be there. */
  function ParseLine(a: string): Request {
    match (Find(a, "{"), Find(a, "}"))
    case (Some(l), Some(r)) =>
      if l < r <= |a| then RequestOf(Trim(a[..l]), IntOf(Trim(a[l + 1..r]))) else Refused(NoLiteral)
    case _ => Refused(NoLiteral)
  }

  function ParseAppend(args: string): Request {
    if Formats(Trim(args)) then ParseLine(UpToNul(Trim(args))) else Aborted
  }

  // ---- the parser ----

  method ReadRequest(args: string) returns (r: Request)
    ensures r == ParseAppend(args)
  {
    var trimmed := SvTrim(args);
    var a, holds := Tprintf(trimmed);
    if !holds {
      return Aborted;
    }
    r := ReadCopy(a);
  }

  method ReadCopy(a: string) returns (r: Request)
    ensures r == ParseLine(a)
  {
    var l := SvFind(a, "{");
    var e := SvFind(a, "}");
    FindSpec(a, "{");
    FindSpec(a, "}");
    if l.None? || e.None? || e.value <= l.value {
      return Refused(NoLiteral);
    }
    var sizeText := SvTrim(a[l.value + 1..e.value]);
    var long, _ := SvToLong(sizeText);
    var size := ToInt32(long);
    if size < 0 {
      return Refused(BadSize);
    }
    var head := SvTrim(a[..l.value]);
    var name := ReadName(head);
    if name.None? {
      return Refused(OpenQuote);
    }
    var (mailbox, rest) := name.value;
    if mailbox == "" {
      return Refused(NoName);
    }
    if rest != "" && rest[0] == '(' {
      var end := SvFind(rest, ")");
      FindCharNone(rest, ')');
      if end.None? {
        return Refused(OpenFlagList);
      }
    }
    r := Literal(mailbox, rest, size);
  }

  method ReadName(head: string) returns (r: Option<(string, string)>)
    ensures r == NameAndRest(head)
  {
    if head != "" && head[0] == '\"' {
      var i := SvFind(head[1..], "\"");
      FindSpec(head[1..], "\"");
      if i.None? {
        return None;
      }
      var rest := SvTrim(head[i.value + 2..]);
      return Some((head[1..i.value + 1], rest));
    }
    var name, rest := SvSplitDelim(head, ' ');
    name := SvTrim(name);
    rest := SvTrim(rest);
    r := Some((name, rest));
  }

  // ---- what a client writes is what is read ----

  predicate NoBraces(s: string) {
    '{' !in s && '}' !in s
  }

  /** The arguments with blanks around every part of them. */
  function Braced(head: string, d: string, gap: string): string {
    head + gap + "{" + (gap + d + gap) + "}"
  }

  /** A mailbox name, quoted or as one word, what stands behind it, and a literal size are read as they were written. */
  lemma ParsesWhatWasWritten(name: string, quoted: bool, list: string, n: nat, gap: string)
    requires Nameable(name, quoted) && NoBraces(name) && NoBraces(list) && n <= INT_MAX
    requires Trimmed(list) && !OpenList(list) && Blanks(gap)
    requires NulFree(name) && NulFree(list)
    ensures var args := Braced(NameText(name, quoted) + Spaced(list, gap), Decimal(n), gap);
            ParseAppend(gap + args + gap) == if |args| < TEMP_BUFFER_CAP then Literal(name, list, n) else Aborted
  {
    var head := NameText(name, quoted) + Spaced(list, gap);
    var args := Braced(head, Decimal(n), gap);
    HeadIs(name, quoted, list, gap);
    DecimalIs(n);
    hide NameText, Nameable, Spaced;
    if |args| < TEMP_BUFFER_CAP {
      ArgumentsRead(args, head, Decimal(n), gap);
      SizeReads(n);
      HeadSplits(name, quoted, list, gap);
      hide Trim, NameAndRest, OpenList, IntOf, ParseAppend, Braced;
    } else {
      ArgumentsAre(args, head, Decimal(n), gap);
      TooLong(args, gap);
    }
  }

  lemma DecimalIs(n: nat)
    ensures var d := Decimal(n); Trimmed(d) && NoBraces(d) && NulFree(d) && Trim(d) == d
  {
    var d := Decimal(n);
    assert IsDigit(d[0]) && IsDigit(d[|d| - 1]);
    TrimNoSpace(d);
  }

  lemma HeadIs(name: string, quoted: bool, list: string, gap: string)
    requires Nameable(name, quoted) && NoBraces(name) && NoBraces(list) && Trimmed(list) && Blanks(gap)
    requires NulFree(name) && NulFree(list)
    ensures var head := NameText(name, quoted) + Spaced(list, gap);
            head != "" && Trimmed(head) && NoBraces(head) && NulFree(head)
  {
    var head := NameText(name, quoted) + Spaced(list, gap);
    NameStarts(name, quoted);
    hide NameText, Nameable;
    assert list != "" ==> head[|head| - 1] == list[|list| - 1];
  }

  lemma TooLong(args: string, gap: string)
    requires args != "" && Trimmed(args) && NulFree(args) && |args| >= TEMP_BUFFER_CAP && Blanks(gap)
    ensures ParseAppend(gap + args + gap) == Aborted
  {
    TrimAround(gap, args, gap);
    FormatsExactly(args);
  }

  /** An argument line with a size: what stands before the braces, and between them. */
  predicate Arguments(args: string, head: string, d: string, gap: string) {
    && args == Braced(head, d, gap) && head != "" && Trimmed(head) && Trimmed(d) && Blanks(gap)
    && NoBraces(head) && NoBraces(d) && NulFree(head) && NulFree(d)
  }

  lemma ArgumentsRead(args: string, head: string, d: string, gap: string)
    requires Arguments(args, head, d, gap) && |args| < TEMP_BUFFER_CAP
    ensures ParseAppend(gap + args + gap) == RequestOf(head, IntOf(d))
  {
    ArgumentsAre(args, head, d, gap);
    LineIs(args, gap);
    hide UpToNul, Formats, NulFree, RequestOf, IntOf, ParseLine;
    ArgsCut(head, d, gap);
    assert head + gap == "" + head + gap;
    TrimAround("", head, gap);
    TrimAround(gap, d, gap);
  }

  lemma ArgumentsAre(args: string, head: string, d: string, gap: string)
    requires Arguments(args, head, d, gap)
    ensures args != "" && Trimmed(args) && NulFree(args)
  {
    assert args[0] == head[0] && args[|args| - 1] == '}';
    assert forall c :: c in gap ==> IsSpace(c);
  }

  lemma LineIs(args: string, gap: string)
    requires args != "" && Trimmed(args) && NulFree(args) && |args| < TEMP_BUFFER_CAP && Blanks(gap)
    ensures Formats(args) && UpToNul(args) == args && Trim(gap + args + gap) == args
  {
    TrimAround(gap, args, gap);
    FormatsExactly(args);
    UpToNulId(args);
  }

  /** A name that can stand there: quoted without quotes in it, or one word that does not begin with a quote. */
  predicate Nameable(name: string, quoted: bool) {
    name != "" && if quoted then '\"' !in name else NoSpace(name) && name[0] != '\"'
  }

  function NameText(name: string, quoted: bool): string {
    if quoted then Quoted(name) else name
  }

  lemma NameStarts(name: string, quoted: bool)
    requires Nameable(name, quoted)
    ensures var s := NameText(name, quoted); s != "" && !IsSpace(s[0]) && !IsSpace(s[|s| - 1])
    ensures NoBraces(name) ==> NoBraces(NameText(name, quoted))
    ensures NulFree(name) ==> NulFree(NameText(name, quoted))
  {
    assert !quoted ==> name[0] in name && name[|name| - 1] in name;
  }

  lemma ArgsCut(head: string, d: string, gap: string)
    requires NoBraces(head) && NoBraces(d) && Blanks(gap)
    ensures ParseLine(Braced(head, d, gap)) == RequestOf(Trim(head + gap), IntOf(Trim(gap + d + gap)))
  {
    hide RequestOf, IntOf;
    var args, size := Braced(head, d, gap), gap + d + gap;
    var before := head + gap;
    assert args == before + "{" + (size + "}");
    assert args == (before + "{" + size) + "}" + "";
    assert NoBraces(gap) by { assert forall c :: c in gap ==> IsSpace(c); }
    FindChar(before, '{', size + "}");
    FindChar(before + "{" + size, '}', "");
    var l := |before|;
    assert args[..l] == before && args[l + 1..l + 1 + |size|] == size;
  }

  function Quoted(name: string): string {
    "\"" + name + "\""
  }

  function Spaced(list: string, gap: string): string {
    if list == "" then "" else " " + (gap + list)
  }

  lemma SizeReads(n: nat)
    requires n <= INT_MAX
    ensures IntOf(Trim(Decimal(n))) == n
  {
    IntOfDecimal(n);
    var d := Decimal(n);
    assert IsDigit(d[0]) && IsDigit(d[|d| - 1]);
    TrimNoSpace(d);
  }

  lemma HeadSplits(name: string, quoted: bool, list: string, gap: string)
    requires Nameable(name, quoted) && Trimmed(list) && Blanks(gap)
    ensures NameAndRest(NameText(name, quoted) + Spaced(list, gap)) == Some((name, list))
  {
    if quoted {
      QuotedSplits(name, list, gap);
    } else {
      assert name[0] in name;
      WordThenRest(name, gap, list);
      TrimNoSpace("");
      assert name + "" == name;
      hide Trim, Split;
    }
  }

  lemma QuotedSplits(name: string, list: string, gap: string)
    requires '\"' !in name && Trimmed(list) && Blanks(gap)
    ensures NameAndRest(Quoted(name) + Spaced(list, gap)) == Some((name, list))
  {
    SpacedTrims(list, gap);
    hide Trim, Spaced;
    QuoteCut(name, Spaced(list, gap));
    hide Find, Quoted;
  }

  lemma QuoteCut(name: string, rest: string)
    requires '\"' !in name
    ensures var head, i := Quoted(name) + rest, |name|;
            && head != "" && head[0] == '\"' && Find(head[1..], "\"") == Some(i) && i < |head| - 1
            && head[1..i + 1] == name && head[i + 2..] == rest
  {
    var head := Quoted(name) + rest;
    assert head[1..] == name + "\"" + rest;
    FindChar(name, '\"', rest);
  }

  lemma SpacedTrims(list: string, gap: string)
    requires Trimmed(list) && Blanks(gap)
    ensures Trim(Spaced(list, gap)) == list
  {
    assert " " + (gap + list) == " " + gap + list + "";
    TrimAround(" " + gap, list, "");
  }

  // ---- the flags as written ----

  /** The arguments of an APPEND; `more` is what may stand between the flags and the literal, such as a date. */
  datatype Line = Line(name: string, quoted: bool, flags: Option<seq<string>>, more: string, size: nat, gap: string)

  function ListText(w: Line): string {
    match w.flags
    case None => w.more
    case Some(toks) => "(" + Join(toks) + ")" + w.more
  }

  /** Without the blanks around it. */
  function LineCore(w: Line): string {
    Braced(NameText(w.name, w.quoted) + Spaced(ListText(w), w.gap), Decimal(w.size), w.gap)
  }

  function LineText(w: Line): string {
    w.gap + LineCore(w) + w.gap
  }

  predicate Writable(w: Line) {
    && Nameable(w.name, w.quoted) && NoBraces(w.name) && NulFree(w.name) && w.size <= INT_MAX && Blanks(w.gap)
    && NoBraces(ListText(w)) && NulFree(ListText(w)) && Trimmed(ListText(w))
    && match w.flags
       case None => w.more == "" || w.more[0] != '('
       case Some(toks) => Tokens(toks) && forall t :: t in toks ==> ')' !in t
  }

  /** The flags named in the list, none without one. */
  function FlagsIn(w: Line): Flags {
    match w.flags
    case None => NO_FLAGS
    case Some(toks) => FlagsListed(toks)
  }

  /** Every line so written is read as its name, its flags and its size, or aborts because it is too long. */
  lemma LineReads(w: Line)
    requires Writable(w)
    ensures ParseAppend(LineText(w)) ==
            if |LineCore(w)| < TEMP_BUFFER_CAP then Literal(w.name, ListText(w), w.size) else Aborted
    ensures AppendFlags(ListText(w)) == FlagsIn(w)
  {
    hide ParseAppend, AppendFlags, FlagsListed, Join;
    if w.flags.Some? {
      AppendFlagsByName(w.flags.value, w.more);
      assert "(" + Join(w.flags.value) + ")" + w.more == ("(" + Join(w.flags.value)) + [')'] + w.more;
      assert ')' in ListText(w);
    } else {
      NoListNoFlags(w.more);
    }
    ParsesWhatWasWritten(w.name, w.quoted, ListText(w), w.size, w.gap);
  }

  // ---- what is refused ----

  /** A line without braces has no literal. */
  lemma RefusesNoLiteral(args: string)
    requires args != "" && Trimmed(args) && NulFree(args) && |args| < TEMP_BUFFER_CAP
    requires '{' !in args || '}' !in args
    ensures ParseAppend(args) == Refused(NoLiteral)
  {
    TrimNoSpace(args);
    FormatsExactly(args);
    UpToNulId(args);
    FindCharNone(args, '{');
    FindCharNone(args, '}');
  }

  /** A negative size is refused, whatever stands before it. */
  lemma RefusesNegative(args: string, head: string, n: nat, gap: string)
    requires 1 <= n <= INT_MAX && Arguments(args, head, "-" + Decimal(n), gap) && |args| < TEMP_BUFFER_CAP
    ensures ParseAppend(gap + args + gap) == Refused(BadSize)
  {
    ArgumentsRead(args, head, "-" + Decimal(n), gap);
    NegativeReads(n);
  }

  lemma NegativeReads(n: nat)
    requires n <= INT_MAX
    ensures IntOf("-" + Decimal(n)) + n == 0
  {
    var s := "-" + Decimal(n);
    assert s[1..] == Decimal(n);
    LeadingValueOfDecimal(n, "");
    assert Decimal(n) + "" == Decimal(n);
    LongReadsAll(s);
  }

  /** A name whose quote is not closed, an empty name and a flag list that is not closed are refused. */
  lemma RefusesNames(args: string, head: string, n: nat, gap: string)
    requires n <= INT_MAX && Arguments(args, head, Decimal(n), gap) && |args| < TEMP_BUFFER_CAP
    ensures var r := ParseAppend(gap + args + gap);
            && (head[0] == '\"' && '\"' !in head[1..] ==> r == Refused(OpenQuote))
            && (head == "\"\"" ==> r == Refused(NoName))
            && ((exists name, quoted, list :: Nameable(name, quoted) && Trimmed(list) && OpenList(list)
                   && head == NameText(name, quoted) + Spaced(list, gap)) ==> r == Refused(OpenFlagList))
  {
    ArgumentsRead(args, head, Decimal(n), gap);
    SizeReads(n);
    DecimalIs(n);
    hide ParseAppend, NameText, Braced;
    FindCharNone(head[1..], '\"');
    if head == "\"\"" {
      QuotedSplits("", "", gap);
      assert Quoted("") + Spaced("", gap) == head;
    }
    forall name, quoted, list | Nameable(name, quoted) && Trimmed(list)
                                && head == NameText(name, quoted) + Spaced(list, gap)
      ensures NameAndRest(head) == Some((name, list)) && name != ""
    {
      HeadSplits(name, quoted, list, gap);
    }
  }

  // ---- the command ----

  datatype Answer = Crash | Bad(why: Refusal) | Stored(uid: nat) | Failed

  /** The next line is not complete, or longer than what is always accepted. */
  ghost predicate NoShortLine(bio: BufIO, p: string)
    reads bio
  {
    var e := RecordEnd(p, CRLF);
    e.None? || e.value > bio.rbuf.Length - bio.rbuf.Length / 2
  }

  /**
   handle_append. Exactly the announced number of bytes after the argument line becomes one message, for
   every way the transport cuts them; the rest of that line is dropped, and a broken connection stores nothing.
   */
  method AppendCommand(bio: BufIO, mb: Mailbox, args: string, base: string) returns (r: Answer)
    requires bio.Valid() && mb.Valid() && UsableBase(base)
    modifies bio`consumed, bio`filled, bio`written, bio.rbuf, bio.wbuf, bio.transport, mb
    ensures bio.Valid() && mb.Valid() && Others(mb.dir) == old(Others(mb.dir))
    ensures ParseAppend(args).Refused? ==> r == Bad(ParseAppend(args).why) && bio.Pending() == old(bio.Pending())
    ensures ParseAppend(args).Aborted? <==> r == Crash
    ensures ParseAppend(args).Literal? ==> !r.Bad?
    ensures !r.Stored? ==> mb.dir == old(mb.dir)
    ensures r.Stored? ==>
              var (size, p) := (ParseAppend(args).size, old(bio.Pending()));
              && size <= |p| && RecordEnd(p[size..], CRLF).Some?
              && bio.Pending() == p[size..][RecordEnd(p[size..], CRLF).value..]
              && r.uid == Next(old(View(mb.dir)))
              && View(mb.dir) ==
                 old(View(mb.dir))[r.uid := Message(base, AppendFlags(ParseAppend(args).rest), p[..size])]
    ensures forall w: Line :: Writable(w) && LineText(w) == args && r.Stored? ==>
              && w.size <= |old(bio.Pending())|
              && View(mb.dir) ==
                 old(View(mb.dir))[r.uid := Message(base, FlagsIn(w), old(bio.Pending())[..w.size])]
    ensures r.Failed? && old(Healthy(bio.transport.acks)) ==>
              var (size, p) := (ParseAppend(args).size, old(bio.Pending()));
              size > |p| || NoShortLine(bio, p[size..])
  {
    hide ParseAppend, Inv, View, Others, Next, AppendFlags, UsableBase, Healthy, LineText, LineCore, Writable, FlagsIn;
    var request := ReadRequest(args);
    if request.Aborted? {
      return Crash;
    }
    if request.Refused? {
      var _ := bio.SendLine("BAD APPEND");
      return Bad(request.why);
    }
    Literally(args);
    var body := ReadLiteral(bio, request.size);
    if body.None? {
      return Failed;
    }
    var uid := mb.Append(base, request.rest, body.value);
    r := Stored(uid.value);
    forall w: Line | Writable(w) && LineText(w) == args
      ensures ParseAppend(args).size == w.size && AppendFlags(ParseAppend(args).rest) == FlagsIn(w)
    {
      LineReads(w);
    }
    var _ := bio.SendLine("OK APPEND completed");
  }

  lemma Literally(args: string)
    ensures var r := ParseAppend(args); r.Literal? ==> !OpenList(r.rest)
  {
  }

  /** The go-ahead, the literal, and the end of its line. */
  method ReadLiteral(bio: BufIO, size: nat) returns (body: Option<string>)
    requires bio.Valid()
    modifies bio`consumed, bio`filled, bio`written, bio.rbuf, bio.wbuf, bio.transport
    ensures bio.Valid()
    ensures body.Some? ==>
              var p := old(bio.Pending());
              && size <= |p| && body.value == p[..size] && RecordEnd(p[size..], CRLF).Some?
              && bio.Pending() == p[size..][RecordEnd(p[size..], CRLF).value..]
    ensures body.None? && old(Healthy(bio.transport.acks)) ==>
              size > |old(bio.Pending())| || NoShortLine(bio, old(bio.Pending())[size..])
  {
    hide Healthy;
    ghost var p := bio.Pending();
    var ok := bio.SendLine("+ Ready for literal data");
    assert bio.Pending() == p;
    if !ok {
      return None;
    }
    var sb := new StringBuilder();
    var err := bio.ReadNInto(size, sb);
    if err.Some? {
      return None;
    }
    assert sb.contents == p[..size];
    var line := bio.ReadUntil(CRLF);
    if line.Err? {
      return None;
    }
    body := Some(sb.contents);
  }
}
