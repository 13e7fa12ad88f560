/** imap.c: BODY[HEADER], BODY[TEXT] and BODY[HEADER.FIELDS (...)] of a stored message. */
module HeaderFilter {
  import opened Views
  import opened TempAlloc

  const CRLF := "\r\n"

  // ---- header block and text ----

  /** Where the header block ends: after the first CRLF CRLF, else after the first LF LF. */
  function BlockEnd(body: string): (r: Option<nat>)
    ensures r.Some? ==> 2 <= r.value <= |body| && body[r.value - 1] == '\n'
  {
    FindSpec(body, "\r\n\r\n");
    FindSpec(body, "\n\n");
    match Find(body, "\r\n\r\n")
    case Some(i) => assert body[i..i + 4][3] == body[i + 3]; Some(i + 4)
    case None =>
      match Find(body, "\n\n")
      case Some(i) => assert body[i..i + 2][1] == body[i + 1]; Some(i + 2)
      case None => None
  }

  function ExtractHeaders(body: string): string {
    match BlockEnd(body)
    case Some(e) => body[..e]
    case None => body
  }

  function ExtractText(body: string): string {
    match BlockEnd(body)
    case Some(e) => body[e..]
    case None => ""
  }

  /** Headers and text are the whole message, cut at one place. */
  lemma HeadersAndText(body: string)
    ensures ExtractHeaders(body) + ExtractText(body) == body
  {
  }

  // ---- field lists ----

  predicate Blank(c: char) {
    c == ' ' || c == '\t'
  }

  function Word(s: string): (w: string)
    ensures |w| <= |s|
  {
    if s == "" || Blank(s[0]) then "" else [s[0]] + Word(s[1..])
  }

  function Words(s: string): seq<string>
    decreases |s|
  {
    if s == "" then []
    else if Blank(s[0]) then Words(s[1..])
    else if Word(s) == "" then []
    else [Word(s)] + Words(s[|Word(s)|..])
  }

  predicate InList(name: string, list: string) {
    exists w :: w in Words(list) && EqualIgnoreCase(w, name)
  }

  /** header_name_in_list: one token after the other. */
  method NameInList(name: string, list: string) returns (r: bool)
    ensures r <==> InList(name, list)
  {
    var i := 0;
    assert list[0..] == list;
    while i < |list|
      invariant 0 <= i <= |list|
      invariant InList(name, list) <==> InList(name, list[i..])
    {
      var s := SkipBlanks(list, i);
      i := EndOfWord(list, s);
      var tok := list[s..i];
      WordsStep(name, list, s, i);
      if tok != "" && EqualIgnoreCase(tok, name) {
        return true;
      }
    }
    r := false;
  }

  method SkipBlanks(list: string, start: nat) returns (i: nat)
    requires start <= |list|
    ensures start <= i <= |list| && Words(list[i..]) == Words(list[start..]) && (i < |list| ==> !Blank(list[i]))
  {
    i := start;
    while i < |list| && Blank(list[i])
      invariant start <= i <= |list| && Words(list[i..]) == Words(list[start..])
    {
      assert list[i..][1..] == list[i + 1..];
      i := i + 1;
    }
  }

  method EndOfWord(list: string, s: nat) returns (i: nat)
    requires s <= |list|
    ensures s <= i <= |list| && Word(list[s..]) == list[s..i]
    ensures s < |list| && !Blank(list[s]) ==> s < i
  {
    i := s;
    while i < |list| && !Blank(list[i])
      invariant s <= i <= |list| && Word(list[s..]) == list[s..i] + Word(list[i..])
    {
      LongerWord(list, s, i);
      i := i + 1;
    }
    assert list[s..i] + "" == list[s..i];
  }

  lemma LongerWord(list: string, s: nat, i: nat)
    requires s <= i < |list| && !Blank(list[i])
    ensures list[s..i] + Word(list[i..]) == list[s..i + 1] + Word(list[i + 1..])
  {
    assert list[i..][1..] == list[i + 1..];
    var w := Word(list[i + 1..]);
    assert Word(list[i..]) == [list[i]] + w;
    assert list[s..i] + ([list[i]] + w) == list[s..i + 1] + w;
  }

  lemma WordsStep(name: string, list: string, s: nat, i: nat)
    requires s <= i <= |list| && Word(list[s..]) == list[s..i] && (s < |list| ==> !Blank(list[s]))
    ensures InList(name, list[s..]) <==>
            (list[s..i] != "" && EqualIgnoreCase(list[s..i], name)) || InList(name, list[i..])
  {
    if s < |list| {
      assert list[s..][i - s..] == list[i..];
      assert Words(list[s..]) == [list[s..i]] + Words(list[i..]);
    }
  }

  /** The list without its optional parentheses. */
  function FieldNames(fields: string): string {
    var f := Trim(fields);
    if |f| >= 2 && f[0] == '(' && f[|f| - 1] == ')' then Trim(f[1..|f| - 1]) else f
  }

  // ---- the line scanner ----

  /** The first line with its newline, and what follows. */
  function CutLine(s: string): (r: (string, string))
    ensures s == r.0 + r.1 && (s != "" ==> r.0 != "")
  {
    if s == "" then ("", "")
    else if s[0] == '\n' then ([s[0]], s[1..])
    else
      var (line, rest) := CutLine(s[1..]);
      ([s[0]] + line, rest)
  }

  predicate BlankLine(line: string) {
    line == CRLF || line == "\n"
  }

  predicate Continuation(line: string) {
    line != "" && Blank(line[0])
  }

  /** The field name of a header line; None without a colon. */
  function FieldName(line: string): Option<string> {
    match Find(line, ":")
    case Some(i) => if i <= |line| then Some(Trim(line[..i])) else None
    case None => None
  }

  /** keep_cont after a line: a header line is decided by its name, a continuation line follows suit. */
  predicate Carry(line: string, keep: string -> bool, cont: bool) {
    if Continuation(line) then cont else FieldName(line).Some? && keep(FieldName(line).value)
  }

  /** The lines kept of a header block, up to its first blank line. */
  function Kept(h: string, keep: string -> bool, cont: bool): string
    decreases |h|
  {
    if h == "" then ""
    else
      var (line, rest) := CutLine(h);
      if BlankLine(line) then ""
      else (if Carry(line, keep, cont) then line else "") + Kept(rest, keep, Carry(line, keep, cont))
  }

  function Filter(body: string, keep: string -> bool): string {
    Kept(ExtractHeaders(body), keep, false) + CRLF
  }

  function FilterHeaderFields(body: string, fields: string): string {
    UpToNul(Filter(body, name => InList(name, FieldNames(fields))))
  }

  /** The second result says whether the assertions of tprintf hold; the program aborts if they do not. */
  method FilterFields(body: string, fields: string) returns (r: string, holds: bool)
    ensures r == FilterHeaderFields(body, fields)
    ensures holds <==> Formats(Filter(body, Listed(fields)))
  {
    var list := FieldNames(fields);
    ghost var keep := name => InList(name, list);
    var headers := ExtractHeaders(body);
    var out := "";
    var rest := headers;
    var keepCont := false;
    while rest != ""
      invariant Kept(headers, keep, false) == out + Kept(rest, keep, keepCont)
      decreases |rest|
    {
      ghost var before := out;
      var line, more := NextLine(rest);
      if BlankLine(line) {
        rest := "";
        break;
      }
      if Continuation(line) {
        if keepCont {
          out := out + line;
        }
      } else {
        var colon := SvFind(line, ":");
        FindSpec(line, ":");
        keepCont := false;
        if colon.Some? {
          var name := SvTrim(line[..colon.value]);
          var listed := NameInList(name, list);
          if listed {
            out := out + line;
            keepCont := true;
          }
        }
      }
      Assoc(before, line, Kept(more, keep, keepCont));
      assert "" + Kept(more, keep, keepCont) == Kept(more, keep, keepCont);
      rest := more;
    }
    assert Kept(headers, keep, false) == out;
    assert Filter(body, Listed(fields)) == out + CRLF by {
      KeptExtensional(headers, keep, Listed(fields), false);
    }
    r, holds := Tprintf(out + CRLF);
  }

  method NextLine(s: string) returns (line: string, rest: string)
    ensures (line, rest) == CutLine(s)
  {
    var i := 0;
    assert s[0..] == s && s[..0] + CutLine(s).0 == CutLine(s).0;
    while i < |s| && s[i] != '\n'
      invariant 0 <= i <= |s|
      invariant CutLine(s).0 == s[..i] + CutLine(s[i..]).0 && CutLine(s).1 == CutLine(s[i..]).1
    {
      Assoc(s[..i], [s[i]], CutLine(s[i + 1..]).0);
      assert s[i..][1..] == s[i + 1..] && s[..i + 1] == s[..i] + [s[i]];
      i := i + 1;
    }
    if i < |s| {
      assert s[i..][1..] == s[i + 1..] && s[..i + 1] == s[..i] + [s[i]];
      i := i + 1;
    }
    line, rest := s[..i], s[i..];
  }

  // ---- lines ----

  lemma {:induction false} CutLineSpec(s: string)
    requires s != ""
    ensures var (line, rest) := CutLine(s);
            if line[|line| - 1] == '\n' then forall i :: 0 <= i < |line| - 1 ==> line[i] != '\n'
            else rest == "" && '\n' !in line
  {
    if s[0] != '\n' && |s| > 1 {
      CutLineSpec(s[1..]);
      var (line, rest) := CutLine(s[1..]);
      assert CutLine(s).0 == [s[0]] + line;
    }
  }

  lemma {:induction false} CutLineAt(line: string, rest: string)
    requires line != "" && line[|line| - 1] == '\n' && forall i :: 0 <= i < |line| - 1 ==> line[i] != '\n'
    ensures CutLine(line + rest) == (line, rest)
  {
    if |line| > 1 {
      assert (line + rest)[1..] == line[1..] + rest;
      CutLineAt(line[1..], rest);
      assert [line[0]] + line[1..] == line;
    } else {
      assert (line + rest)[1..] == rest && line == [line[0]];
    }
  }

  predicate OpenEnd(s: string) {
    s != "" && s[|s| - 1] != '\n'
  }

  function Both(p: string -> bool, q: string -> bool): string -> bool {
    name => p(name) && q(name)
  }

  /** One open last line, once it was kept and closed by the final CRLF. */
  lemma ClosedLine(line: string, q: string -> bool, cq: bool)
    requires line != "" && '\n' !in line && (Continuation(line) || FieldName(line).Some?)
    ensures Kept(line + CRLF, q, cq) ==
            if Carry(line, q, cq) then line + CRLF else ""
  {
    var closed := line + CRLF;
    assert closed[|closed| - 1] == '\n' && closed + "" == closed;
    CutLineAt(closed, "");
    assert closed[0] == line[0] && |closed| > 2;
    if !Continuation(line) {
      FindSpec(line, ":");
      var i := Find(line, ":").value;
      FindPrefix(line, CRLF, ":");
      assert closed[..i] == line[..i];
    }
    assert closed + Kept("", q, Carry(closed, q, cq)) == closed;
  }

  /** Filtering what was kept, line by line; only an open last line kept by both is not left as it is. */
  lemma {:induction false} FilterKept(h: string, p: string -> bool, q: string -> bool, cp: bool, cq: bool)
    ensures var both := Kept(h, Both(p, q), cp && cq);
            Kept(Kept(h, p, cp) + CRLF, q, cq) == both + if OpenEnd(both) then CRLF else ""
    decreases |h|
  {
    if h == "" {
      BlankEnds(q, cq);
    } else {
      var (line, rest) := CutLine(h);
      CutLineSpec(h);
      if BlankLine(line) {
        BlankEnds(q, cq);
      } else if line[|line| - 1] == '\n' {
        ClosedStep(h, line, rest, p, q, cp, cq);
      } else {
        assert h == line;
        OpenStep(h, p, q, cp, cq);
      }
    }
  }

  lemma BlankEnds(q: string -> bool, cq: bool)
    ensures Kept("" + CRLF, q, cq) == ""
  {
    CutLineAt(CRLF, "");
    assert "" + CRLF == CRLF + "" == CRLF;
  }

  lemma CarryBoth(line: string, p: string -> bool, q: string -> bool, cp: bool, cq: bool)
    ensures Carry(line, Both(p, q), cp && cq) == (Carry(line, p, cp) && Carry(line, q, cq))
  {
  }

  lemma KeptLine(line: string, rest: string, keep: string -> bool, cont: bool)
    requires line != "" && line[|line| - 1] == '\n' && forall i :: 0 <= i < |line| - 1 ==> line[i] != '\n'
    requires !BlankLine(line)
    ensures var c := Carry(line, keep, cont);
            Kept(line + rest, keep, cont) == if c then line + Kept(rest, keep, c) else Kept(rest, keep, c)
  {
    CutLineAt(line, rest);
    KeptUnfold(line + rest, line, rest, keep, cont);
  }

  lemma {:induction false} ClosedStep(h: string, line: string, rest: string, p: string -> bool, q: string -> bool,
                                      cp: bool, cq: bool)
    requires h != "" && CutLine(h) == (line, rest) && !BlankLine(line)
    requires line[|line| - 1] == '\n' && forall i :: 0 <= i < |line| - 1 ==> line[i] != '\n'
    ensures var both := Kept(h, Both(p, q), cp && cq);
            Kept(Kept(h, p, cp) + CRLF, q, cq) == both + if OpenEnd(both) then CRLF else ""
    decreases |h|, 0
  {
    hide Carry, FieldName, Kept;
    CarryBoth(line, p, q, cp, cq);
    var cp' := Carry(line, p, cp);
    var cq' := if cp' then Carry(line, q, cq) else cq;
    FilterKept(rest, p, q, cp', cq');
    var k, both := Kept(rest, p, cp'), Kept(rest, Both(p, q), cp' && cq');
    KeptUnfold(h, line, rest, p, cp);
    KeptUnfold(h, line, rest, Both(p, q), cp && cq);
    if cp' {
      KeptLine(line, k + CRLF, q, cq);
      Assoc(line, k, CRLF);
    }
    if cp' && cq' {
      Assoc(line, both, if OpenEnd(both) then CRLF else "");
      assert OpenEnd(line + both) == OpenEnd(both);
    }
  }

  lemma KeptUnfold(h: string, line: string, rest: string, keep: string -> bool, cont: bool)
    requires h != "" && CutLine(h) == (line, rest) && !BlankLine(line)
    ensures var c := Carry(line, keep, cont);
            Kept(h, keep, cont) == if c then line + Kept(rest, keep, c) else Kept(rest, keep, c)
  {
    assert "" + Kept(rest, keep, false) == Kept(rest, keep, false);
  }

  lemma OpenStep(line: string, p: string -> bool, q: string -> bool, cp: bool, cq: bool)
    requires line != "" && CutLine(line) == (line, "") && '\n' !in line
    ensures var both := Kept(line, Both(p, q), cp && cq);
            Kept(Kept(line, p, cp) + CRLF, q, cq) == both + if OpenEnd(both) then CRLF else ""
  {
    assert line + "" == line && "" + "" == "";
    CarryBoth(line, p, q, cp, cq);
    if Carry(line, p, cp) {
      assert Kept(line, p, cp) == line;
      ClosedLine(line, q, cq);
      assert line[|line| - 1] != '\n';
    } else {
      BlankEnds(q, cq);
    }
  }

  // ---- the kept lines read again ----

  /** No line of s is blank. */
  ghost predicate NoBlankLine(s: string) {
    forall i {:trigger s[i]} :: 0 <= i < |s| && (i == 0 || s[i - 1] == '\n') ==>
      s[i] != '\n' && !(s[i] == '\r' && i + 1 < |s| && s[i + 1] == '\n')
  }

  lemma NoBlankJoin(line: string, rest: string)
    requires line != "" && !BlankLine(line) && NoBlankLine(rest)
    requires line[|line| - 1] == '\n' && forall i :: 0 <= i < |line| - 1 ==> line[i] != '\n'
    ensures NoBlankLine(line + rest)
  {
    var s := line + rest;
    forall i | 0 <= i < |s| && (i == 0 || s[i - 1] == '\n')
      ensures s[i] != '\n' && !(s[i] == '\r' && i + 1 < |s| && s[i + 1] == '\n')
    {
      if i == 0 {
        assert |line| == 1 ==> line == "\n";
        assert |line| == 2 && line[0] == '\r' ==> line == CRLF;
      } else {
        assert i >= |line|;
        assert s[i] == rest[i - |line|];
      }
    }
  }

  lemma {:induction false} KeptHasNoBlankLine(h: string, keep: string -> bool, cont: bool)
    ensures NoBlankLine(Kept(h, keep, cont))
    decreases |h|
  {
    if h != "" {
      var (line, rest) := CutLine(h);
      CutLineSpec(h);
      if !BlankLine(line) {
        var c := Carry(line, keep, cont);
        KeptUnfold(h, line, rest, keep, cont);
        KeptHasNoBlankLine(rest, keep, c);
        if c {
          if line[|line| - 1] == '\n' {
            NoBlankJoin(line, Kept(rest, keep, c));
          } else {
            assert line + "" == line;
          }
        }
      }
    }
  }

  /** The kept lines and the CRLF after them are one header block. */
  lemma FilteredIsAllHeaders(k: string)
    requires NoBlankLine(k)
    ensures ExtractHeaders(k + CRLF) == k + CRLF
  {
    var s := k + CRLF;
    FindSpec(s, "\r\n\r\n");
    FindSpec(s, "\n\n");
    NoBareBlankLine(k);
    if Find(s, "\r\n\r\n").Some? {
      BlankLineIsLast(k, Find(s, "\r\n\r\n").value);
      assert s[..|s|] == s;
    }
  }

  lemma BlankLineIsLast(k: string, j: nat)
    requires NoBlankLine(k) && OccursAt(k + CRLF, "\r\n\r\n", j)
    ensures j + 4 == |k + CRLF|
  {
    var s := k + CRLF;
    assert s[j..j + 4] == [s[j], s[j + 1], s[j + 2], s[j + 3]];
    assert forall i :: 0 <= i < |k| ==> s[i] == k[i];
  }

  lemma NoBareBlankLine(k: string)
    requires NoBlankLine(k)
    ensures forall j: nat :: j <= |k + CRLF| ==> !OccursAt(k + CRLF, "\n\n", j)
  {
    var s := k + CRLF;
    assert forall i :: 0 <= i < |k| ==> s[i] == k[i];
    forall j: nat | j + 2 <= |s| ensures !OccursAt(s, "\n\n", j) {
      assert s[j..j + 2] == [s[j], s[j + 1]];
    }
  }

  // ---- what is kept, said field by field ----

  /** A header field: its first line and the lines folded under it. */
  datatype HeaderField = HeaderField(first: string, folded: seq<string>)

  predicate WholeLine(line: string) {
    line != "" && line[|line| - 1] == '\n' && forall i :: 0 <= i < |line| - 1 ==> line[i] != '\n'
  }

  predicate IsField(f: HeaderField) {
    && WholeLine(f.first) && !Continuation(f.first) && !BlankLine(f.first)
    && (forall l :: l in f.folded ==> WholeLine(l) && Continuation(l))
  }

  function Concat(lines: seq<string>): string {
    if lines == [] then "" else lines[0] + Concat(lines[1..])
  }

  function BlockText(fields: seq<HeaderField>): string {
    if fields == [] then "" else fields[0].first + (Concat(fields[0].folded) + BlockText(fields[1..]))
  }

  /** The fields whose name is asked for. */
  function Chosen(fields: seq<HeaderField>, keep: string -> bool): seq<HeaderField> {
    if fields == [] then []
    else
      var name := FieldName(fields[0].first);
      (if name.Some? && keep(name.value) then [fields[0]] else []) + Chosen(fields[1..], keep)
  }

  /** Filtering keeps exactly the fields asked for, each with all its continuation lines, in order. */
  lemma FieldsKeptWhole(body: string, fields: seq<HeaderField>, tail: string, keep: string -> bool)
    requires ExtractHeaders(body) == BlockText(fields) + tail
    requires forall f :: f in fields ==> IsField(f)
    requires tail == "" || BlankLine(CutLine(tail).0)
    ensures Filter(body, keep) == BlockText(Chosen(fields, keep)) + CRLF
  {
    KeptFields(fields, tail, keep, false);
  }

  lemma {:induction false} KeptFields(fields: seq<HeaderField>, tail: string, keep: string -> bool, cont: bool)
    requires forall f :: f in fields ==> IsField(f)
    requires tail == "" || BlankLine(CutLine(tail).0)
    ensures Kept(BlockText(fields) + tail, keep, cont) == BlockText(Chosen(fields, keep))
  {
    if fields == [] {
      assert "" + tail == tail;
    } else {
      var f, later := fields[0], BlockText(fields[1..]);
      assert f in fields;
      var c := FieldName(f.first).Some? && keep(FieldName(f.first).value);
      assert f.first + (Concat(f.folded) + later) + tail == f.first + (Concat(f.folded) + (later + tail));
      KeptField(f, later + tail, keep, cont);
      KeptFields(fields[1..], tail, keep, c);
      ChosenText(fields, keep);
    }
  }

  /** One field goes through whole or not at all. */
  lemma KeptField(f: HeaderField, rest: string, keep: string -> bool, cont: bool)
    requires IsField(f)
    ensures var c := FieldName(f.first).Some? && keep(FieldName(f.first).value);
            Kept(f.first + (Concat(f.folded) + rest), keep, cont) ==
            (if c then f.first else "") + ((if c then Concat(f.folded) else "") + Kept(rest, keep, c))
  {
    hide FieldName, Concat;
    var c := FieldName(f.first).Some? && keep(FieldName(f.first).value);
    CutLineAt(f.first, Concat(f.folded) + rest);
    KeptUnfold(f.first + (Concat(f.folded) + rest), f.first, Concat(f.folded) + rest, keep, cont);
    KeptFolded(f.folded, rest, keep, c);
    var k := Kept(rest, keep, c);
    assert "" + ("" + k) == k;
  }

  lemma {:induction false} KeptFolded(lines: seq<string>, rest: string, keep: string -> bool, cont: bool)
    requires forall l :: l in lines ==> WholeLine(l) && Continuation(l)
    ensures Kept(Concat(lines) + rest, keep, cont) == (if cont then Concat(lines) else "") + Kept(rest, keep, cont)
  {
    if lines == [] {
      assert "" + rest == rest;
    } else {
      assert lines[0] in lines;
      assert Concat(lines) + rest == lines[0] + (Concat(lines[1..]) + rest);
      CutLineAt(lines[0], Concat(lines[1..]) + rest);
      KeptFolded(lines[1..], rest, keep, cont);
      Assoc(lines[0], Concat(lines[1..]), Kept(rest, keep, cont));
    }
  }

  lemma ChosenText(fields: seq<HeaderField>, keep: string -> bool)
    requires fields != []
    ensures var c := FieldName(fields[0].first).Some? && keep(FieldName(fields[0].first).value);
            BlockText(Chosen(fields, keep)) ==
            (if c then fields[0].first else "") +
            ((if c then Concat(fields[0].folded) else "") + BlockText(Chosen(fields[1..], keep)))
  {
    var c := FieldName(fields[0].first).Some? && keep(FieldName(fields[0].first).value);
    var rest := Chosen(fields[1..], keep);
    if c {
      assert ([fields[0]] + rest)[1..] == rest;
    } else {
      assert [] + rest == rest;
    }
  }

  // ---- field lists as written ----

  /** The words of a list are the names written in it. */
  lemma {:induction false} WordsOfJoin(names: seq<string>)
    requires Tokens(names)
    ensures Words(Join(names)) == names
  {
    if names != [] {
      var n, more := names[0], names[1..];
      assert n in names && n[0] in n;
      assert forall m :: m in more ==> m in names;
      WordsOfJoin(more);
      var rest := if more == [] then "" else " " + Join(more);
      FirstWord(n, rest);
      BlankFirst(Join(more));
      hide Words, Word;
      assert Join(names) == n + rest;
      assert names == [n] + more;
    }
  }

  lemma BlankFirst(s: string)
    ensures Words(" " + s) == Words(s) && Words("") == []
  {
    assert (" " + s)[1..] == s;
  }

  /** Any run of blanks and tabs separates words. */
  lemma {:induction false} WordsSeparate(a: string, gap: string, b: string)
    requires gap != "" && Gap(gap)
    ensures Words(a + gap + b) == Words(a) + Words(b)
    decreases |a|
  {
    WordsUnfold(a);
    WordsUnfold(a + gap + b);
    hide Words, Word;
    if a == "" {
      assert a + gap + b == gap + b;
      GapSkipped(gap, b);
    } else if Blank(a[0]) {
      assert (a + gap + b)[1..] == a[1..] + gap + b;
      WordsSeparate(a[1..], gap, b);
    } else {
      var w := Word(a);
      WordEnds(a, gap + b);
      assert a + gap + b == a + (gap + b);
      assert (a + gap + b)[|w|..] == a[|w|..] + gap + b;
      WordsSeparate(a[|w|..], gap, b);
      Assoc([w], Words(a[|w|..]), Words(b));
    }
  }

  lemma WordsUnfold(s: string)
    ensures s == "" ==> Words(s) == []
    ensures s != "" && Blank(s[0]) ==> Words(s) == Words(s[1..])
    ensures s != "" && !Blank(s[0]) ==> Word(s) != "" && Words(s) == [Word(s)] + Words(s[|Word(s)|..])
  {
  }

  lemma {:induction false} GapSkipped(gap: string, b: string)
    requires Gap(gap)
    ensures Words(gap + b) == Words(b)
  {
    if gap == "" {
      assert gap + b == b;
    } else {
      assert (gap + b)[1..] == gap[1..] + b;
      GapSkipped(gap[1..], b);
    }
  }

  lemma {:induction false} WordEnds(a: string, rest: string)
    requires rest != "" && (rest[0] == ' ' || rest[0] == '\t')
    ensures Word(a + rest) == Word(a)
  {
    if a == "" {
      assert a + rest == rest;
    } else {
      assert (a + rest)[1..] == a[1..] + rest;
      WordEnds(a[1..], rest);
    }
  }

  lemma FirstWord(n: string, rest: string)
    requires n != "" && NoSpace(n) && (rest == "" || Blank(rest[0]))
    ensures Words(n + rest) == [n] + Words(rest)
  {
    WordAt(n, rest);
    assert n[0] in n && (n + rest)[|n|..] == rest;
  }

  lemma {:induction false} WordAt(n: string, rest: string)
    requires NoSpace(n) && (rest == "" || Blank(rest[0]))
    ensures Word(n + rest) == n
  {
    if n == "" {
      assert n + rest == rest;
    } else {
      assert n[0] in n;
      assert (n + rest)[1..] == n[1..] + rest && n == [n[0]] + n[1..];
      WordAt(n[1..], rest);
    }
  }

  /** A list of names, with or without its parentheses, asks for exactly those names, in any case of letters. */
  lemma ListedAsWritten(names: seq<string>, x: string)
    requires Tokens(names)
    ensures Listed("(" + Join(names) + ")")(x) <==> Mentions(names, x)
    ensures (forall n :: n in names ==> '(' !in n) ==> (Listed(Join(names))(x) <==> Mentions(names, x))
  {
    var list := Join(names);
    WordsOfJoin(names);
    assert Trim(list) == list by {
      if names != [] {
        JoinTrimmed(names);
      }
    }
    var closed := "(" + list + ")";
    TrimNoSpace(closed);
    assert closed[1..|closed| - 1] == list;
    if names != [] {
      assert names[0] in names && list[0] == names[0][0];
      assert names[0][0] in names[0];
    }
  }

  // ---- header blocks as written ----

  /** A header field: its name, blanks, then after the colon the rest of its line, and the lines folded under it. */
  datatype Header = Header(name: string, gap: string, value: string, folded: seq<string>)

  predicate Proper(h: Header) {
    && h.name != "" && NoSpace(h.name) && ':' !in h.name && Blanks(h.gap) && '\n' !in h.gap
    && WholeLine(h.value) && forall l :: l in h.folded ==> WholeLine(l) && (l[0] == ' ' || l[0] == '\t')
  }

  function FieldOf(h: Header): HeaderField {
    HeaderField(h.name + h.gap + ":" + h.value, h.folded)
  }

  function FieldsOf(headers: seq<Header>): seq<HeaderField> {
    if headers == [] then [] else [FieldOf(headers[0])] + FieldsOf(headers[1..])
  }

  function HeaderText(headers: seq<Header>): string {
    BlockText(FieldsOf(headers))
  }

  /** The fields whose names are in the list, in order. */
  ghost function Wanted(headers: seq<Header>, names: seq<string>): seq<Header> {
    if headers == [] then []
    else (if Mentions(names, headers[0].name) then [headers[0]] else []) + Wanted(headers[1..], names)
  }

  lemma ProperIsField(h: Header)
    requires Proper(h)
    ensures IsField(FieldOf(h)) && FieldName(FieldOf(h).first) == Some(h.name)
  {
    NameIsRead(h.name, h.gap, h.value);
    hide FieldName;
    assert h.name[0] in h.name && '\n' !in h.name;
    WholeJoined(h.name + h.gap + ":", h.value);
    var first := h.name + h.gap + ":" + h.value;
    assert first[0] == h.name[0] && |first| >= 3;
  }

  lemma WholeJoined(a: string, b: string)
    requires '\n' !in a && WholeLine(b)
    ensures WholeLine(a + b)
  {
    assert forall i :: 0 <= i < |a| ==> (a + b)[i] == a[i] && a[i] in a;
    assert forall i :: 0 <= i < |b| ==> (a + b)[|a| + i] == b[i];
  }

  lemma NameIsRead(name: string, gap: string, value: string)
    requires name != "" && NoSpace(name) && ':' !in name && Blanks(gap)
    ensures FieldName(name + gap + ":" + value) == Some(name)
  {
    var front := name + gap;
    assert name[0] in name && name[|name| - 1] in name;
    assert ':' !in gap;
    FindChar(front, ':', value);
    assert front + ":" + value == front + [':'] + value && (front + ":" + value)[..|front|] == front;
    assert front == "" + name + gap;
    TrimAround("", name, gap);
  }

  lemma {:induction false} ProperFields(headers: seq<Header>)
    requires forall h :: h in headers ==> Proper(h)
    ensures forall f :: f in FieldsOf(headers) ==> IsField(f)
  {
    if headers != [] {
      assert headers[0] in headers;
      ProperIsField(headers[0]);
      ProperFields(headers[1..]);
    }
  }

  lemma {:induction false} ChosenIsWanted(headers: seq<Header>, names: seq<string>, keep: string -> bool)
    requires forall h :: h in headers ==> Proper(h)
    requires forall x :: keep(x) <==> Mentions(names, x)
    ensures Chosen(FieldsOf(headers), keep) == FieldsOf(Wanted(headers, names))
  {
    hide Mentions, Proper;
    if headers != [] {
      var h, more := headers[0], headers[1..];
      assert h in headers;
      assert forall x :: x in more ==> x in headers;
      ProperIsField(h);
      ChosenIsWanted(more, names, keep);
      hide Chosen, FieldName, FieldOf;
      OneChosen(FieldOf(h), FieldsOf(more), keep);
      OneWanted(h, Wanted(more, names));
      assert [] + Wanted(more, names) == Wanted(more, names);
    }
  }

  lemma OneChosen(f: HeaderField, more: seq<HeaderField>, keep: string -> bool)
    ensures Chosen([f] + more, keep) ==
            if FieldName(f.first).Some? && keep(FieldName(f.first).value) then [f] + Chosen(more, keep)
            else Chosen(more, keep)
  {
    hide FieldName;
    assert ([f] + more)[1..] == more;
  }

  lemma OneWanted(h: Header, more: seq<Header>)
    ensures FieldsOf([h] + more) == [FieldOf(h)] + FieldsOf(more)
  {
    assert ([h] + more)[1..] == more;
  }

  lemma {:induction false} FieldsHaveNoBlankLine(fields: seq<HeaderField>)
    requires forall f :: f in fields ==> IsField(f)
    ensures NoBlankLine(BlockText(fields)) && (fields != [] ==> WholeEnd(BlockText(fields)))
  {
    if fields != [] {
      var f, later := fields[0], BlockText(fields[1..]);
      assert f in fields;
      FieldsHaveNoBlankLine(fields[1..]);
      hide NoBlankLine;
      FoldedHaveNoBlankLine(f.folded, later);
      NoBlankJoin(f.first, Concat(f.folded) + later);
    }
  }

  predicate WholeEnd(s: string) {
    s != "" && s[|s| - 1] == '\n'
  }

  lemma {:induction false} FoldedHaveNoBlankLine(lines: seq<string>, later: string)
    requires forall l :: l in lines ==> WholeLine(l) && Continuation(l)
    requires NoBlankLine(later) && (later == "" || WholeEnd(later))
    ensures var s := Concat(lines) + later; NoBlankLine(s) && (s == "" || WholeEnd(s))
  {
    if lines == [] {
      assert "" + later == later;
    } else {
      var l, rest := lines[0], Concat(lines[1..]) + later;
      assert l in lines;
      FoldedHaveNoBlankLine(lines[1..], later);
      assert Concat(lines) + later == l + rest;
      FoldedJoin(l, rest);
    }
  }

  lemma FoldedJoin(l: string, rest: string)
    requires WholeLine(l) && Continuation(l) && NoBlankLine(rest) && (rest == "" || WholeEnd(rest))
    ensures NoBlankLine(l + rest) && WholeEnd(l + rest)
  {
    NoBlankJoin(l, rest);
  }

  /** The blank line after a header block. */
  predicate Separator(sep: string) {
    sep == CRLF || sep == "\n"
  }

  /** No blank line is found before the one after the block. */
  lemma BlockEndsAfter(block: string, sep: string, text: string)
    requires NoBlankLine(block) && (block == "" || WholeEnd(block)) && Separator(sep)
    ensures var e := BlockEnd(block + sep + text); e.Some? ==> e.value >= |block| + |sep|
  {
    var s := block + sep + text;
    FindSpec(s, "\r\n\r\n");
    FindSpec(s, "\n\n");
    forall j: nat | OccursAt(s, "\r\n\r\n", j) ensures j + 4 >= |block| + |sep| {
      LongBreak(block, sep, text, j);
    }
    forall j: nat | OccursAt(s, "\n\n", j) ensures j + 2 >= |block| + |sep| {
      ShortBreak(block, sep, text, j);
    }
  }

  lemma LongBreak(block: string, sep: string, text: string, j: nat)
    requires NoBlankLine(block) && (block == "" || WholeEnd(block)) && Separator(sep)
    requires OccursAt(block + sep + text, "\r\n\r\n", j)
    ensures j + 4 >= |block| + |sep|
  {
    var s := block + sep + text;
    assert s[j..j + 4] == [s[j], s[j + 1], s[j + 2], s[j + 3]];
    assert forall i :: 0 <= i < |block| ==> s[i] == block[i];
    assert s[|block|] == sep[0];
  }

  lemma ShortBreak(block: string, sep: string, text: string, j: nat)
    requires NoBlankLine(block) && (block == "" || WholeEnd(block)) && Separator(sep)
    requires OccursAt(block + sep + text, "\n\n", j)
    ensures j + 2 >= |block| + |sep|
  {
    var s := block + sep + text;
    assert s[j..j + 2] == [s[j], s[j + 1]];
    assert forall i :: 0 <= i < |block| ==> s[i] == block[i];
    assert s[|block|] == sep[0];
  }

  /** So the header block the scanner sees is the block, the blank line, and perhaps more that it never looks at. */
  lemma HeadersOfBlock(block: string, sep: string, text: string) returns (tail: string)
    requires NoBlankLine(block) && (block == "" || WholeEnd(block)) && Separator(sep)
    ensures ExtractHeaders(block + sep + text) == block + tail && BlankLine(CutLine(tail).0)
  {
    BlockEndsAfter(block, sep, text);
    hide BlockEnd, NoBlankLine;
    var body := block + sep + text;
    var more := match BlockEnd(body) case Some(e) => text[..e - |block| - |sep|] case None => text;
    tail := sep + more;
    SeparatorLine(sep, more);
    hide CutLine, BlankLine, Separator;
    if BlockEnd(body).Some? {
      FrontOfThree(block, sep, text, BlockEnd(body).value);
    } else {
      assert body == block + tail;
    }
  }

  lemma FrontOfThree(a: string, b: string, c: string, e: nat)
    requires |a| + |b| <= e <= |a + b + c|
    ensures (a + b + c)[..e] == a + (b + c[..e - |a| - |b|])
  {
  }

  lemma SeparatorLine(sep: string, more: string)
    requires Separator(sep)
    ensures BlankLine(CutLine(sep + more).0)
  {
    CutLineAt(sep, more);
  }

  /** With CRLF line ends the message is cut exactly behind the blank line. */
  lemma CrLfBlockIsCut(block: string, text: string)
    requires NoBlankLine(block) && |block| >= 2 && block[|block| - 2..] == CRLF
    ensures ExtractHeaders(block + CRLF + text) == block + CRLF && ExtractText(block + CRLF + text) == text
  {
    var s, i := block + CRLF + text, |block| - 2;
    assert s[i..i + 4] == block[|block| - 2..] + CRLF == "\r\n\r\n";
    forall j: nat | j < i ensures !OccursAt(s, "\r\n\r\n", j) {
      if OccursAt(s, "\r\n\r\n", j) {
        LongBreak(block, CRLF, text, j);
      }
    }
    FindIs(s, "\r\n\r\n", i);
    assert s[..i + 4] == block + CRLF && s[i + 4..] == text;
  }

  /** With LF line ends too, if there is no CRLF CRLF further on, which would be taken for the end. */
  lemma LfBlockIsCut(block: string, text: string)
    requires NoBlankLine(block) && WholeEnd(block) && !Occurs(block + "\n" + text, "\r\n\r\n")
    ensures ExtractHeaders(block + "\n" + text) == block + "\n" && ExtractText(block + "\n" + text) == text
  {
    var s, i := block + "\n" + text, |block| - 1;
    assert s[i] == '\n' && s[i + 1] == '\n';
    assert s[i..i + 2] == [s[i], s[i + 1]] == "\n\n";
    forall j: nat | j < i ensures !OccursAt(s, "\n\n", j) {
      if OccursAt(s, "\n\n", j) {
        ShortBreak(block, "\n", text, j);
      }
    }
    FindIs(s, "\n\n", i);
    FindSpec(s, "\r\n\r\n");
    assert s[..i + 2] == block + "\n" && s[i + 2..] == text;
  }

  /**
   BODY[HEADER.FIELDS (names)] of a message whose header fields are written as name, colon and value, with
   folded lines: exactly the fields whose names are in the list, whole and in order, and a blank line.
   */
  lemma FieldsAsAsked(headers: seq<Header>, sep: string, text: string, names: seq<string>, fields: string)
    requires (forall h :: h in headers ==> Proper(h)) && Separator(sep) && Tokens(names)
    requires fields == "(" + Join(names) + ")" || (fields == Join(names) && forall n :: n in names ==> '(' !in n)
    requires NulFree(HeaderText(headers) + sep + text)
    ensures FilterHeaderFields(HeaderText(headers) + sep + text, fields) ==
            HeaderText(Wanted(headers, names)) + CRLF
  {
    var block := HeaderText(headers);
    var body := block + sep + text;
    ProperFields(headers);
    FieldsHaveNoBlankLine(FieldsOf(headers));
    var tail := HeadersOfBlock(block, sep, text);
    hide NoBlankLine, ExtractHeaders, FieldNames, InList, Separator, BlankLine;
    forall x ensures Listed(fields)(x) <==> Mentions(names, x) {
      ListedAsWritten(names, x);
    }
    FilterHeaderFieldsPlain(body, fields);
    FieldsKeptWhole(body, FieldsOf(headers), tail, Listed(fields));
    ChosenIsWanted(headers, names, Listed(fields));
  }

  // ---- the laws ----

  /**
   The name of the field that the last header line belongs to if that line has no newline, read off the
   header block: a continuation line belongs to the field before it, and a blank line ends the scan.
   */
  function OpenField(h: string, current: Option<string>): Option<string>
    decreases |h|
  {
    if h == "" then None
    else
      var (line, rest) := CutLine(h);
      if BlankLine(line) then None
      else
        var now := if Continuation(line) then current else FieldName(line);
        if OpenEnd(line) then now else OpenField(rest, now)
  }

  /** Whether the message ends in an open header line of a field that is asked for. */
  predicate LeavesOpenLine(body: string, keep: string -> bool) {
    Asked(OpenField(ExtractHeaders(body), None), keep)
  }

  predicate Asked(name: Option<string>, keep: string -> bool) {
    name.Some? && keep(name.value)
  }

  /** That is when the kept lines end open. */
  lemma {:induction false} KeptOpenEnd(h: string, keep: string -> bool, current: Option<string>)
    ensures OpenEnd(Kept(h, keep, Asked(current, keep))) <==> Asked(OpenField(h, current), keep)
    decreases |h|
  {
    hide FieldName, Kept;
    var cont := Asked(current, keep);
    KeptEmpty(keep, cont);
    if h != "" {
      var (line, rest) := CutLine(h);
      CutLineSpec(h);
      if BlankLine(line) {
        KeptBlank(h, keep, cont);
      } else {
        var now := if Continuation(line) then current else FieldName(line);
        KeptUnfold(h, line, rest, keep, cont);
        assert Carry(line, keep, cont) == Asked(now, keep);
        KeptOpenEnd(rest, keep, now);
        EndOfTwo(line, Kept(rest, keep, Asked(now, keep)));
        if OpenEnd(line) {
          KeptEmpty(keep, Asked(now, keep));
        }
      }
    }
  }

  /** Filtering twice, exactly: an open last line kept by both is closed once more. */
  lemma FilterTwice(body: string, p: string -> bool, q: string -> bool)
    ensures Filter(Filter(body, p), q) ==
            Filter(body, Both(p, q)) + if LeavesOpenLine(body, Both(p, q)) then CRLF else ""
  {
    var h := ExtractHeaders(body);
    KeptHasNoBlankLine(h, p, false);
    FilteredIsAllHeaders(Kept(h, p, false));
    FilterKept(h, p, q, false, false);
    KeptOpenEnd(h, Both(p, q), None);
  }

  /**
   Filtering by p, then q, is filtering by both at once exactly when the message does not end in an open
   header line of a field named in both.
   */
  lemma FilterComposesExactly(body: string, p: string -> bool, q: string -> bool)
    ensures Filter(Filter(body, p), q) == Filter(body, Both(p, q)) <==> !LeavesOpenLine(body, Both(p, q))
  {
    FilterTwice(body, p, q);
    if LeavesOpenLine(body, Both(p, q)) {
      assert |Filter(Filter(body, p), q)| == |Filter(body, Both(p, q))| + 2;
    }
  }

  /** So it composes for all filters exactly when the header block does not end in an open line of a field. */
  lemma FiltersComposeExactly(body: string)
    ensures (forall p: string -> bool, q: string -> bool :: Filter(Filter(body, p), q) == Filter(body, Both(p, q)))
            <==> OpenField(ExtractHeaders(body), None).None?
  {
    hide Filter, ExtractHeaders, OpenField;
    forall p: string -> bool, q: string -> bool
      ensures Filter(Filter(body, p), q) == Filter(body, Both(p, q)) <==> !LeavesOpenLine(body, Both(p, q))
    {
      FilterComposesExactly(body, p, q);
    }
    var all: string -> bool := name => true;
    assert LeavesOpenLine(body, Both(all, all)) <==> OpenField(ExtractHeaders(body), None).Some?;
    assert Filter(Filter(body, all), all) == Filter(body, Both(all, all)) <==> !LeavesOpenLine(body, Both(all, all));
  }

  /** A message that is one open header line asked for grows by a CRLF when it is filtered again. */
  lemma OpenLineGrows(line: string, keep: string -> bool)
    requires line != "" && '\n' !in line && !Continuation(line) && Asked(FieldName(line), keep)
    ensures Filter(Filter(line, keep), keep) == Filter(line, keep) + CRLF
  {
    FilterTwice(line, keep, keep);
    KeptExtensional(ExtractHeaders(line), Both(keep, keep), keep, false);
    NoBreakNoEnd(line);
    OpenLine(line);
  }

  lemma NoBreakNoEnd(line: string)
    requires '\n' !in line
    ensures ExtractHeaders(line) == line
  {
    FindSpec(line, "\r\n\r\n");
    FindSpec(line, "\n\n");
    forall j: nat, t: string | OccursAt(line, t, j) && |t| >= 2 ensures t[1] != '\n' {
      assert line[j + 1] == line[j..j + |t|][1];
    }
  }

  lemma OpenLine(line: string)
    requires line != "" && '\n' !in line && !Continuation(line)
    ensures OpenField(line, None) == FieldName(line)
  {
    var (first, rest) := CutLine(line);
    CutLineSpec(line);
    assert line == first + rest;
    assert first[|first| - 1] == line[|first| - 1];
    assert first == line;
    assert line[|line| - 1] != '\n';
    hide FieldName;
  }

  lemma KeptBlank(h: string, keep: string -> bool, cont: bool)
    requires h != "" && BlankLine(CutLine(h).0)
    ensures Kept(h, keep, cont) == ""
  {
  }

  lemma EndOfTwo(line: string, more: string)
    requires line != ""
    ensures OpenEnd(line + more) <==> if more == "" then OpenEnd(line) else OpenEnd(more)
  {
    assert line + "" == line;
  }

  lemma KeptEmpty(keep: string -> bool, cont: bool)
    ensures Kept("", keep, cont) == ""
  {
  }

  lemma {:induction false} ClosedBlock(h: string, current: Option<string>)
    requires !OpenEnd(h)
    ensures OpenField(h, current).None?
    decreases |h|
  {
    if h != "" {
      var (line, rest) := CutLine(h);
      CutLineSpec(h);
      assert rest != "" ==> rest[|rest| - 1] == h[|h| - 1];
      assert rest == "" ==> line == h;
      ClosedBlock(rest, if Continuation(line) then current else FieldName(line));
    }
  }

  /** A message with a blank line after its headers never ends in an open header line. */
  lemma BlankLineClosesHeaders(body: string)
    requires BlockEnd(body).Some?
    ensures OpenField(ExtractHeaders(body), None).None?
  {
    ClosedBlock(ExtractHeaders(body), None);
  }

  // ---- on field lists ----

  lemma {:induction false} KeptNulFree(h: string, keep: string -> bool, cont: bool)
    requires NulFree(h)
    ensures NulFree(Kept(h, keep, cont))
    decreases |h|
  {
    if h != "" {
      var (line, rest) := CutLine(h);
      assert h == line + rest;
      if !BlankLine(line) {
        KeptUnfold(h, line, rest, keep, cont);
        KeptNulFree(rest, keep, Carry(line, keep, cont));
      }
    }
  }

  function Listed(fields: string): string -> bool {
    name => InList(name, FieldNames(fields))
  }

  lemma FilterHeaderFieldsPlain(body: string, fields: string)
    requires NulFree(body)
    ensures FilterHeaderFields(body, fields) == Filter(body, Listed(fields)) && NulFree(Filter(body, Listed(fields)))
  {
    assert body == ExtractHeaders(body) + ExtractText(body);
    KeptNulFree(ExtractHeaders(body), Listed(fields), false);
    UpToNulId(Filter(body, Listed(fields)));
  }

  lemma {:induction false} KeptIsShorter(h: string, keep: string -> bool, cont: bool)
    ensures |Kept(h, keep, cont)| <= |h|
    decreases |h|
  {
    hide Carry, FieldName;
    if h != "" {
      var (line, rest) := CutLine(h);
      assert |h| == |line| + |rest|;
      if !BlankLine(line) {
        KeptUnfold(h, line, rest, keep, cont);
        KeptIsShorter(rest, keep, Carry(line, keep, cont));
      }
    }
  }

  /** A NUL-free message aborts the filter exactly when 4094 bytes or more of its header block are kept. */
  lemma FilterFormatsExactly(body: string, fields: string)
    requires NulFree(body)
    ensures Formats(Filter(body, Listed(fields))) <==> |Kept(ExtractHeaders(body), Listed(fields), false)| < 4094
    ensures |ExtractHeaders(body)| < 4094 ==> Formats(Filter(body, Listed(fields)))
  {
    FilterHeaderFieldsPlain(body, fields);
    FormatsExactly(Filter(body, Listed(fields)));
    KeptIsShorter(ExtractHeaders(body), Listed(fields), false);
  }

  /**
   BODY[HEADER.FIELDS]: for a NUL-free message with a blank line after its headers, filtering by one
   list and then another keeps exactly the fields named in both, so the order of the lists does not
   matter and filtering again by the same list changes nothing.
   */
  lemma FieldListsCompose(body: string, a: string, b: string)
    requires NulFree(body) && BlockEnd(body).Some?
    ensures FilterHeaderFields(FilterHeaderFields(body, a), b) == Filter(body, Both(Listed(a), Listed(b)))
    ensures FilterHeaderFields(FilterHeaderFields(body, a), b) == FilterHeaderFields(FilterHeaderFields(body, b), a)
    ensures FilterHeaderFields(FilterHeaderFields(body, a), a) == FilterHeaderFields(body, a)
  {
    BlankLineClosesHeaders(body);
    FieldListsComposeExactly(body, a, b);
    FieldListsComposeExactly(body, b, a);
    FieldListsComposeExactly(body, a, a);
    KeptExtensional(ExtractHeaders(body), Both(Listed(a), Listed(b)), Both(Listed(b), Listed(a)), false);
    KeptExtensional(ExtractHeaders(body), Both(Listed(a), Listed(a)), Listed(a), false);
    FilterHeaderFieldsPlain(body, a);
  }

  /** For NUL-free messages, exactly: the condition is on the message's own last header line. */
  lemma FieldListsComposeExactly(body: string, a: string, b: string)
    requires NulFree(body)
    ensures FilterHeaderFields(FilterHeaderFields(body, a), b) == Filter(body, Both(Listed(a), Listed(b))) <==>
            !LeavesOpenLine(body, Both(Listed(a), Listed(b)))
  {
    FilterHeaderFieldsPlain(body, a);
    FilterHeaderFieldsPlain(Filter(body, Listed(a)), b);
    FilterComposesExactly(body, Listed(a), Listed(b));
  }

  lemma {:induction false} KeptExtensional(h: string, p: string -> bool, q: string -> bool, cont: bool)
    requires forall name :: p(name) == q(name)
    ensures Kept(h, p, cont) == Kept(h, q, cont)
    decreases |h|
  {
    if h != "" {
      var (line, rest) := CutLine(h);
      KeptExtensional(rest, p, q, Carry(line, p, cont));
    }
  }
}
