/** imap.c: IMAP flag names, the flag list of STORE and APPEND, and the FLAGS text sent back. */
module ImapFlags {
  import opened Views
  import opened Maildir

  /** The order of flags_to_imap. */
  const REPLY_ORDER := "STFRD"

  function FlagName(c: char): string {
    match c
    case 'S' => "\\Seen"
    case 'T' => "\\Deleted"
    case 'F' => "\\Flagged"
    case 'R' => "\\Answered"
    case _ => "\\Draft"
  }

  /** imap_flag_to_maildir; '\0' for a flag the server does not know. */
  function LetterOf(flag: string): char {
    if EqualIgnoreCase(flag, "\\Seen") then 'S'
    else if EqualIgnoreCase(flag, "\\Deleted") then 'T'
    else if EqualIgnoreCase(flag, "\\Flagged") then 'F'
    else if EqualIgnoreCase(flag, "\\Answered") then 'R'
    else if EqualIgnoreCase(flag, "\\Draft") then 'D'
    else '\0'
  }

  lemma LetterOfName(c: char)
    requires c in REPLY_ORDER
    ensures LetterOf(FlagName(c)) == c && NoSpace(FlagName(c)) && FlagName(c) != ""
  {
    assert REPLY_ORDER == ['S', 'T', 'F', 'R', 'D'];
    if c == 'F' {
      assert LowerChar("\\Flagged"[1]) != LowerChar("\\Deleted"[1]);
    }
  }

  // ---- the flag list loop ----

  /** Each blank-separated token switches its flag; an empty token ends the list. */
  function ApplyList(text: string, f: Flags, on: bool): Flags
    decreases |text|
  {
    if text == "" then f
    else
      var (first, rest) := Split(Trim(text), ' ');
      if Trim(first) == "" || |rest| >= |text| then f
      else ApplyList(rest, WithFlag(f, LetterOf(Trim(first)), on), on)
  }

  method ParseFlagList(text: string, f0: Flags, on: bool) returns (f: Flags)
    ensures f == ApplyList(text, f0, on)
  {
    f := f0;
    var left := text;
    while left != ""
      invariant ApplyList(left, f, on) == ApplyList(text, f0, on)
      decreases |left|
    {
      var trimmed := SvTrim(left);
      var first, rest := SvSplitDelim(trimmed, ' ');
      var flag := SvTrim(first);
      if flag == "" {
        break;
      }
      assert trimmed != "";
      f := WithFlag(f, LetterOf(flag), on);
      left := rest;
    }
  }

  function ApplyTokens(toks: seq<string>, f: Flags, on: bool): Flags {
    if toks == [] then f else ApplyTokens(toks[1..], WithFlag(f, LetterOf(toks[0]), on), on)
  }

  /** The list loop folds the switch over the tokens. */
  lemma {:induction false} ApplyListJoin(toks: seq<string>, f: Flags, on: bool)
    requires Tokens(toks)
    ensures ApplyList(Join(toks), f, on) == ApplyTokens(toks, f, on)
  {
    if toks != [] {
      var t, more := toks[0], toks[1..];
      assert t in toks;
      JoinTrimmed(toks);
      assert t[0] in t && t[|t| - 1] in t;
      TrimNoSpace(t);
      assert ' ' !in t;
      ApplyListJoin(more, WithFlag(f, LetterOf(t), on), on);
      if more == [] {
        assert Split(t, ' ') == (t, "");
        assert Join(more) == "";
      } else {
        assert Join(toks) == t + [' '] + Join(more);
        SplitAt(t, ' ', Join(more));
      }
    }
  }

  /** The known flags named in a list. */
  function Named(toks: seq<string>): set<char> {
    set t | t in toks && LetterOf(t) in LETTERS :: LetterOf(t)
  }

  /** So a list adds exactly the flags it names, or removes exactly those. */
  lemma {:induction false} ApplyTokensSet(toks: seq<string>, f: Flags, on: bool)
    ensures FlagSet(ApplyTokens(toks, f, on)) == if on then FlagSet(f) + Named(toks) else FlagSet(f) - Named(toks)
  {
    if toks == [] {
      assert Named(toks) == {};
    } else {
      var t, more := toks[0], toks[1..];
      var c := LetterOf(t);
      ApplyTokensSet(more, WithFlag(f, c, on), on);
      WithFlagSet(f, c, on);
      assert toks == [t] + more;
      assert Named(toks) == Named(more) + (if c in LETTERS then {c} else {});
      FlagSetSpec(f, c);
      HasSpec(f, c);
    }
  }

  // ---- the flags by their names ----

  /** The flags whose names are in the list, in any case of letters. */
  function FlagsListed(toks: seq<string>): Flags {
    Flags(Mentions(toks, "\\Seen"), Mentions(toks, "\\Deleted"), Mentions(toks, "\\Flagged"),
          Mentions(toks, "\\Answered"), Mentions(toks, "\\Draft"))
  }

  /** f with the flags of g turned on or off. */
  function Switched(f: Flags, g: Flags, on: bool): Flags {
    Flags(if g.seen then on else f.seen, if g.deleted then on else f.deleted, if g.flagged then on else f.flagged,
          if g.replied then on else f.replied, if g.draft then on else f.draft)
  }

  /** A name stands for one flag, and every other text for none. */
  lemma LetterIsName(t: string, f: Flags, on: bool)
    ensures WithFlag(f, LetterOf(t), on) ==
            Flags(if EqualIgnoreCase(t, "\\Seen") then on else f.seen,
                  if EqualIgnoreCase(t, "\\Deleted") then on else f.deleted,
                  if EqualIgnoreCase(t, "\\Flagged") then on else f.flagged,
                  if EqualIgnoreCase(t, "\\Answered") then on else f.replied,
                  if EqualIgnoreCase(t, "\\Draft") then on else f.draft)
  {
    if |t| == 8 {
      assert LowerChar("\\Flagged"[1]) != LowerChar("\\Deleted"[1]);
    }
  }

  /** The fold switches exactly the flags named. */
  lemma {:induction false} TokensByName(toks: seq<string>, f: Flags, on: bool)
    ensures ApplyTokens(toks, f, on) == Switched(f, FlagsListed(toks), on)
  {
    if toks == [] {
      NoneListed(f, on);
    } else {
      hide LetterOf, WithFlag, Switched, FlagsListed;
      TokensByName(toks[1..], WithFlag(f, LetterOf(toks[0]), on), on);
      OneMoreListed(toks, f, on);
    }
  }

  lemma NoneListed(f: Flags, on: bool)
    ensures Switched(f, FlagsListed([]), on) == f
  {
    hide EqualIgnoreCase;
  }

  lemma OneMoreListed(toks: seq<string>, f: Flags, on: bool)
    requires toks != []
    ensures Switched(WithFlag(f, LetterOf(toks[0]), on), FlagsListed(toks[1..]), on) ==
            Switched(f, FlagsListed(toks), on)
  {
    hide EqualIgnoreCase, LetterOf, WithFlag, Mentions;
    LetterIsName(toks[0], f, on);
    MentionsFirst(toks, "\\Seen");
    MentionsFirst(toks, "\\Deleted");
    MentionsFirst(toks, "\\Flagged");
    MentionsFirst(toks, "\\Answered");
    MentionsFirst(toks, "\\Draft");
  }

  /** So every list text does. */
  lemma ListByName(toks: seq<string>, f: Flags, on: bool)
    requires Tokens(toks)
    ensures ApplyList(Join(toks), f, on) == Switched(f, FlagsListed(toks), on)
  {
    ApplyListJoin(toks, f, on);
    TokensByName(toks, f, on);
  }

  // ---- the FLAGS text ----

  function Names(f: Flags, order: string): seq<string> {
    if order == "" then []
    else (if Has(f, order[0]) then [FlagName(order[0])] else []) + Names(f, order[1..])
  }

  function FlagsToImap(f: Flags): string {
    "(" + Join(Names(f, REPLY_ORDER)) + ")"
  }

  /** flags_to_imap: a blank before every name but the first. */
  method WriteFlags(f: Flags) returns (text: string)
    ensures text == FlagsToImap(f)
  {
    var first := true;
    ghost var done := [];
    text := "";
    text, first, done := PushName(text, first, done, f, REPLY_ORDER, f.seen);
    text, first, done := PushName(text, first, done, f, REPLY_ORDER[1..], f.deleted);
    text, first, done := PushName(text, first, done, f, REPLY_ORDER[2..], f.flagged);
    text, first, done := PushName(text, first, done, f, REPLY_ORDER[3..], f.replied);
    text, first, done := PushName(text, first, done, f, REPLY_ORDER[4..], f.draft);
    OrderSteps(f);
    assert done + [] == done == [] + Names(f, REPLY_ORDER);
    text := "(" + text + ")";
  }

  lemma OrderSteps(f: Flags)
    ensures REPLY_ORDER[1..][1..] == REPLY_ORDER[2..] && REPLY_ORDER[2..][1..] == REPLY_ORDER[3..]
    ensures REPLY_ORDER[3..][1..] == REPLY_ORDER[4..] && REPLY_ORDER[4..][1..] == ""
    ensures [] + Names(f, REPLY_ORDER) == Names(f, REPLY_ORDER)
  {
  }

  /** One conditional name; the names still to come complete those already written. */
  method PushName(text0: string, first0: bool, ghost done0: seq<string>, ghost f: Flags, order: string, on: bool)
    returns (text: string, first: bool, ghost done: seq<string>)
    requires order != "" && on == Has(f, order[0])
    requires text0 == Join(done0) && (first0 <==> done0 == [])
    ensures text == Join(done) && (first <==> done == [])
    ensures done + Names(f, order[1..]) == done0 + Names(f, order)
  {
    text, first, done := text0, first0, done0;
    if on {
      if !first {
        text := text + " ";
      }
      text := text + FlagName(order[0]);
      first := false;
      JoinSnoc(done, FlagName(order[0]));
      done := done + [FlagName(order[0])];
      assert done0 + ([FlagName(order[0])] + Names(f, order[1..])) == done + Names(f, order[1..]);
    } else {
      assert [] + Names(f, order[1..]) == Names(f, order[1..]);
    }
  }

  lemma {:induction false} JoinSnoc(toks: seq<string>, t: string)
    ensures Join(toks + [t]) == if toks == [] then t else Join(toks) + " " + t
  {
    if toks != [] {
      JoinSnoc(toks[1..], t);
      assert (toks + [t])[1..] == toks[1..] + [t];
      if |toks| > 1 {
        assert toks[0] + " " + (Join(toks[1..]) + " " + t) == toks[0] + " " + Join(toks[1..]) + " " + t;
      }
    }
  }

  lemma {:induction false} NamesSpec(f: Flags, order: string)
    requires forall c :: c in order ==> c in REPLY_ORDER
    ensures Tokens(Names(f, order))
    ensures forall t :: t in Names(f, order) <==> exists c :: c in order && Has(f, c) && t == FlagName(c)
  {
    if order != "" {
      NamesSpec(f, order[1..]);
      LetterOfName(order[0]);
      assert order == [order[0]] + order[1..];
    }
  }

  /** Inside the parentheses, as handle_store_ex strips them. */
  function StripParens(s: string): string {
    if |s| >= 2 && s[0] == '(' && s[|s| - 1] == ')' then s[1..|s| - 1] else s
  }

  lemma StripParensOf(s: string)
    ensures StripParens("(" + s + ")") == s
  {
  }

  /** Sending the echoed FLAGS back as a replacement list yields the same flags. */
  lemma EchoRoundTrip(f: Flags)
    ensures ApplyList(StripParens(FlagsToImap(f)), NO_FLAGS, true) == f
  {
    var toks := Names(f, REPLY_ORDER);
    StripParensOf(Join(toks));
    NamesSpec(f, REPLY_ORDER);
    ApplyListJoin(toks, NO_FLAGS, true);
    ApplyTokensSet(toks, NO_FLAGS, true);
    EchoNames(f);
    assert FlagSet(NO_FLAGS) == {};
    FlagSetInjective(ApplyTokens(toks, NO_FLAGS, true), f);
  }

  lemma EchoNames(f: Flags)
    ensures Named(Names(f, REPLY_ORDER)) == FlagSet(f)
  {
    var toks := Names(f, REPLY_ORDER);
    NamesSpec(f, REPLY_ORDER);
    forall c ensures c in Named(toks) <==> c in FlagSet(f) {
      FlagSetSpec(f, c);
      HasSpec(f, c);
      SameLetters(c);
      if c in FlagSet(f) {
        LetterOfName(c);
        assert FlagName(c) in toks;
      }
      if c in Named(toks) {
        var t :| t in toks && LetterOf(t) == c;
        var x :| x in REPLY_ORDER && Has(f, x) && t == FlagName(x);
        LetterOfName(x);
      }
    }
  }

  lemma SameLetters(c: char)
    ensures c in REPLY_ORDER <==> c in LETTERS
  {
    assert REPLY_ORDER == ['S', 'T', 'F', 'R', 'D'] && LETTERS == ['D', 'F', 'R', 'S', 'T'];
    assert 'S' == REPLY_ORDER[0] == LETTERS[3] && 'T' == REPLY_ORDER[1] == LETTERS[4]
           && 'F' == REPLY_ORDER[2] == LETTERS[1];
    assert 'R' == REPLY_ORDER[3] == LETTERS[2] && 'D' == REPLY_ORDER[4] == LETTERS[0];
  }
}
