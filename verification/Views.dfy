/** String views and the scanners of basic.c that every protocol parser is built on. */
module Views {

  datatype Option<+T> = None | Some(value: T)

  lemma Assoc<T>(a: seq<T>, b: seq<T>, c: seq<T>)
    ensures a + (b + c) == (a + b) + c
  {
  }

  // ---- characters (C locale) ----

  /** isspace: blank, \t, \n, \v, \f, \r. */
  predicate IsSpace(c: char) {
    c == ' ' || '\t' <= c <= '\r'
  }

  function LowerChar(c: char): char {
    if 'A' <= c <= 'Z' then (c as int + 32) as char else c
  }

  function Lower(s: string): (r: string)
    ensures |r| == |s|
    ensures forall i :: 0 <= i < |s| ==> r[i] == LowerChar(s[i])
  {
    seq(|s|, i requires 0 <= i < |s| => LowerChar(s[i]))
  }

  /** sv_equal_ignore_case, as the relation it decides. */
  predicate EqualIgnoreCase(a: string, b: string) {
    |a| == |b| && forall i :: 0 <= i < |a| ==> LowerChar(a[i]) == LowerChar(b[i])
  }

  lemma EqualIgnoreCaseIsLower(a: string, b: string)
    ensures EqualIgnoreCase(a, b) <==> Lower(a) == Lower(b)
  {
    if Lower(a) == Lower(b) {
      assert forall i :: 0 <= i < |a| ==> LowerChar(a[i]) == Lower(a)[i] == Lower(b)[i] == LowerChar(b[i]);
    }
  }

  // ---- substring search ----

  predicate OccursAt(s: string, t: string, i: nat) {
    i + |t| <= |s| && s[i..i + |t|] == t
  }

  predicate Occurs(s: string, t: string) {
    exists i: nat :: i <= |s| && OccursAt(s, t, i)
  }

  /** The first position of t in s, which is what sv_find returns (None for -1). */
  function Find(s: string, t: string): Option<nat> {
    FindFrom(s, t, 0)
  }

  function FindFrom(s: string, t: string, i: nat): Option<nat>
    requires i <= |s|
    decreases |s| - i
  {
    if OccursAt(s, t, i) then Some(i)
    else if i == |s| then None
    else FindFrom(s, t, i + 1)
  }

  lemma {:induction false} FindFromSpec(s: string, t: string, i: nat)
    requires i <= |s|
    ensures var r := FindFrom(s, t, i);
            && (r.Some? ==>
                  i <= r.value && OccursAt(s, t, r.value) && forall j: nat :: i <= j < r.value ==> !OccursAt(s, t, j))
            && (r.None? ==> forall j: nat :: i <= j <= |s| ==> !OccursAt(s, t, j))
    decreases |s| - i
  {
    if !OccursAt(s, t, i) && i < |s| {
      FindFromSpec(s, t, i + 1);
    }
  }

  /** Find meets its description, and nothing else does (see FindIs). */
  lemma FindSpec(s: string, t: string)
    ensures Find(s, t).Some? ==>
              OccursAt(s, t, Find(s, t).value) && forall j: nat :: j < Find(s, t).value ==> !OccursAt(s, t, j)
    ensures Find(s, t).None? <==> !Occurs(s, t)
  {
    FindFromSpec(s, t, 0);
  }

  /** The loop of sv_find; every caller passes a non-empty needle. */
  method SvFind(s: string, t: string) returns (r: Option<nat>)
    requires t != ""
    ensures r == Find(s, t)
  {
    var i := 0;
    while i < |s|
      invariant i <= |s|
      invariant forall j: nat :: j < i ==> !OccursAt(s, t, j)
    {
      if s[i] == t[0] && i + |t| <= |s| {
        if s[i..i + |t|] == t {
          FindIs(s, t, i);
          return Some(i);
        }
      }
      i := i + 1;
    }
    FindNone(s, t);
    r := None;
  }

  lemma FindIs(s: string, t: string, i: nat)
    requires OccursAt(s, t, i)
    requires forall j: nat :: j < i ==> !OccursAt(s, t, j)
    ensures Find(s, t) == Some(i)
  {
    FindSpec(s, t);
    assert i <= |s|;
    assert Occurs(s, t);
  }

  lemma FindNone(s: string, t: string)
    requires t != ""
    requires forall j: nat :: j < |s| ==> !OccursAt(s, t, j)
    ensures Find(s, t) == None
  {
    FindSpec(s, t);
    assert !OccursAt(s, t, |s|);
  }

  /** What is found in a prefix is found at the same place in the whole. */
  lemma FindPrefix(a: string, b: string, t: string)
    requires Find(a, t).Some?
    ensures Find(a + b, t) == Find(a, t)
  {
    FindSpec(a, t);
    var i := Find(a, t).value;
    assert (a + b)[i..i + |t|] == a[i..i + |t|];
    forall j: nat | j < i ensures !OccursAt(a + b, t, j) {
      assert !OccursAt(a, t, j);
      assert (a + b)[j..j + |t|] == a[j..j + |t|];
    }
    FindIs(a + b, t, i);
  }

  /** A single character is found exactly where it first stands. */
  lemma FindChar(a: string, c: char, b: string)
    requires c !in a
    ensures Find(a + [c] + b, [c]) == Some(|a|)
  {
    var s := a + [c] + b;
    assert OccursAt(s, [c], |a|);
    forall j: nat | j < |a| ensures !OccursAt(s, [c], j) {
      assert s[j..j + 1] == [a[j]];
    }
    FindIs(s, [c], |a|);
  }

  lemma FindCharNone(s: string, c: char)
    ensures Find(s, [c]).None? <==> c !in s
  {
    FindSpec(s, [c]);
    if c in s {
      var i :| 0 <= i < |s| && s[i] == c;
      assert OccursAt(s, [c], i);
    } else {
      forall j: nat | j < |s| ensures !OccursAt(s, [c], j) {
        assert s[j..j + 1] == [s[j]];
      }
      FindNone(s, [c]);
    }
  }

  // ---- splitting ----

  /** sv_split_delim: the text before the first delimiter and the text after it. */
  function Split(s: string, d: char): (r: (string, string))
    ensures d in s ==> s == r.0 + [d] + r.1
    ensures d !in s ==> r == (s, "")
    ensures d !in r.0
    ensures |r.1| <= |s| && (s != "" ==> |r.1| < |s|)
  {
    if s == "" then ("", "")
    else if s[0] == d then ("", s[1..])
    else
      var (a, b) := Split(s[1..], d);
      assert s == [s[0]] + s[1..];
      assert d in s[1..] ==> s == [s[0]] + (a + [d] + b);
      ([s[0]] + a, b)
  }

  lemma SplitAt(a: string, d: char, b: string)
    requires d !in a
    ensures Split(a + [d] + b, d) == (a, b)
  {
    var s := a + [d] + b;
    assert s[|a|] == d;
    var (x, y) := Split(s, d);
    assert s == x + [d] + y;
    assert forall i :: 0 <= i < |a| ==> s[i] == a[i];
    assert forall i :: 0 <= i < |x| ==> s[i] == x[i];
    assert s[|x|] == d;
    assert x == s[..|a|] == a;
    assert y == s[|a| + 1..] == b;
  }

  /** The loop of sv_split_delim. */
  method SvSplitDelim(s: string, d: char) returns (first: string, second: string)
    ensures (first, second) == Split(s, d)
  {
    var i := 0;
    while i < |s| && s[i] != d
      invariant i <= |s|
      invariant d !in s[..i]
    {
      i := i + 1;
    }
    if i == |s| {
      assert s[..i] == s;
      return s, "";
    }
    first, second := s[..i], s[i + 1..];
    assert s == first + [d] + second;
    SplitAt(first, d, second);
  }

  // ---- trimming ----

  function TrimLeft(s: string): (r: string)
    ensures |r| <= |s|
  {
    if s != "" && IsSpace(s[0]) then TrimLeft(s[1..]) else s
  }

  function TrimRight(s: string): (r: string)
    ensures |r| <= |s|
  {
    if s != "" && IsSpace(s[|s| - 1]) then TrimRight(s[..|s| - 1]) else s
  }

  /** sv_trim: right end first, then left. */
  function Trim(s: string): (r: string)
    ensures |r| <= |s|
  {
    TrimLeft(TrimRight(s))
  }

  /** Trimming takes a run of spaces off each end and nothing else. */
  lemma {:induction false} TrimLeftSpec(s: string)
    ensures var r := TrimLeft(s); r == s[|s| - |r|..] && (r == "" || !IsSpace(r[0]))
    ensures forall i :: 0 <= i < |s| - |TrimLeft(s)| ==> IsSpace(s[i])
  {
    if s != "" && IsSpace(s[0]) {
      TrimLeftSpec(s[1..]);
      assert forall i :: 1 <= i < |s| ==> s[i] == s[1..][i - 1];
    }
  }

  lemma {:induction false} TrimRightSpec(s: string)
    ensures var r := TrimRight(s); r == s[..|r|] && (r == "" || !IsSpace(r[|r| - 1]))
    ensures forall i :: |TrimRight(s)| <= i < |s| ==> IsSpace(s[i])
  {
    if s != "" && IsSpace(s[|s| - 1]) {
      TrimRightSpec(s[..|s| - 1]);
    }
  }

  lemma TrimSpec(s: string)
    ensures Trim(s) == "" || (!IsSpace(Trim(s)[0]) && !IsSpace(Trim(s)[|Trim(s)| - 1]))
    ensures exists i, j :: 0 <= i <= j <= |s| && Trim(s) == s[i..j] &&
              (forall k :: 0 <= k < i || j <= k < |s| ==> IsSpace(s[k]))
  {
    TrimRightSpec(s);
    var t := TrimRight(s);
    TrimLeftSpec(t);
    var i, j := |t| - |Trim(s)|, |t|;
    assert Trim(s) == t[i..] == s[i..j];
    assert forall k :: 0 <= k < |t| ==> t[k] == s[k];
  }

  /** The two loops of sv_trim. */
  method SvTrim(s: string) returns (r: string)
    ensures r == Trim(s)
  {
    var n := |s|;
    assert s[..n] == s;
    while n > 0 && IsSpace(s[n - 1])
      invariant 0 <= n <= |s|
      invariant TrimRight(s) == TrimRight(s[..n])
    {
      assert s[..n][..n - 1] == s[..n - 1];
      n := n - 1;
    }
    r := s[..n];
    assert TrimRight(s) == r;
    while r != "" && IsSpace(r[0])
      invariant TrimLeft(r) == Trim(s)
      decreases |r|
    {
      r := r[1..];
    }
  }

  predicate NoSpace(s: string) {
    forall c :: c in s ==> !IsSpace(c)
  }

  /** No blank at either end. */
  predicate Trimmed(s: string) {
    s == "" || (!IsSpace(s[0]) && !IsSpace(s[|s| - 1]))
  }

  predicate Blanks(s: string) {
    forall i :: 0 <= i < |s| ==> IsSpace(s[i])
  }

  /** Blanks and tabs only. */
  predicate Gap(s: string) {
    forall i :: 0 <= i < |s| ==> s[i] == ' ' || s[i] == '\t'
  }

  lemma TrimNoSpace(s: string)
    requires Trimmed(s)
    ensures Trim(s) == s
  {
  }

  /** Blanks around a text that has none at its ends are what trimming takes off. */
  lemma TrimAround(before: string, s: string, after: string)
    requires Trimmed(s) && Blanks(before) && Blanks(after)
    ensures Trim(before + s + after) == s
  {
    if s == "" {
      assert before + s + after == "" + (before + after);
      TrimRightAround("", before + after);
    } else {
      TrimRightAround(before + s, after);
      TrimLeftAround(before, s);
    }
  }

  lemma {:induction false} TrimRightAround(s: string, after: string)
    requires s == "" || !IsSpace(s[|s| - 1])
    requires Blanks(after)
    ensures TrimRight(s + after) == s
  {
    if after == "" {
      assert s + after == s;
    } else {
      var n := |after| - 1;
      assert (s + after)[..|s + after| - 1] == s + after[..n];
      assert (s + after)[|s + after| - 1] == after[n];
      TrimRightAround(s, after[..n]);
    }
  }

  lemma {:induction false} TrimLeftAround(before: string, s: string)
    requires s == "" || !IsSpace(s[0])
    requires Blanks(before)
    ensures TrimLeft(before + s) == s
  {
    if before == "" {
      assert before + s == s;
    } else {
      assert (before + s)[1..] == before[1..] + s;
      TrimLeftAround(before[1..], s);
    }
  }

  /** A word, blanks and the rest, as every handler cuts them. */
  lemma WordThenRest(word: string, gap: string, rest: string)
    requires NoSpace(word) && Blanks(gap) && Trimmed(rest)
    ensures Split(word + (" " + (gap + rest)), ' ') == (word, gap + rest)
    ensures Trim(word) == word && Trim(gap + rest) == rest && Split(word, ' ') == (word, "")
  {
    assert ' ' !in word;
    assert word != "" ==> word[0] in word && word[|word| - 1] in word;
    assert word + (" " + (gap + rest)) == word + [' '] + (gap + rest);
    SplitAt(word, ' ', gap + rest);
    TrimNoSpace(word);
    assert gap + rest == gap + rest + "";
    TrimAround(gap, rest, "");
  }

  // ---- texts of blank-separated words ----

  /** Words without blanks in them. */
  predicate Tokens(toks: seq<string>) {
    forall t :: t in toks ==> t != "" && NoSpace(t)
  }

  function Join(toks: seq<string>): string {
    if toks == [] then ""
    else if |toks| == 1 then toks[0]
    else toks[0] + " " + Join(toks[1..])
  }

  /** The word is in the list, in any case of letters. */
  predicate Mentions(toks: seq<string>, name: string) {
    exists t :: t in toks && EqualIgnoreCase(t, name)
  }

  lemma MentionsFirst(toks: seq<string>, name: string)
    requires toks != []
    ensures Mentions(toks, name) <==> EqualIgnoreCase(toks[0], name) || Mentions(toks[1..], name)
  {
    hide EqualIgnoreCase;
    assert toks == [toks[0]] + toks[1..];
  }

  lemma JoinTrimmed(toks: seq<string>)
    requires Tokens(toks) && toks != []
    ensures Join(toks) != "" && Trim(Join(toks)) == Join(toks)
  {
    JoinEnds(toks);
    TrimNoSpace(Join(toks));
  }

  lemma {:induction false} JoinEnds(toks: seq<string>)
    requires Tokens(toks) && toks != []
    ensures var s := Join(toks); s != "" && !IsSpace(s[0]) && !IsSpace(s[|s| - 1])
  {
    assert toks[0] in toks && toks[0][0] in toks[0] && toks[0][|toks[0]| - 1] in toks[0];
    if |toks| > 1 {
      JoinEnds(toks[1..]);
    }
  }

  // ---- the string builder ----

  /** The growing output buffer of basic.c, by its contents. */
  class StringBuilder {
    var contents: string

    constructor ()
      ensures contents == ""
    {
      contents := "";
    }

    method PushSv(s: string)
      modifies this
      ensures contents == old(contents) + s
    {
      contents := contents + s;
    }
  }
}
