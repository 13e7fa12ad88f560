/** http.c: the header multimap, a table of value lists. */
module HttpHeaders {
  import opened Views
  import opened Decimals
  import opened HashTables

  const HTTP_HEADER_CAPACITY: nat := 20

  datatype Field = Field(key: string, value: string)

  // ---- what a list of fields means (section 5.3 of RFC 9110) ----

  /** All values sent under name k, in the order they came. */
  function Values(fields: seq<Field>, k: string): seq<string> {
    if fields == [] then []
    else
      var n := |fields| - 1;
      Values(fields[..n], k) + (if Lower(fields[n].key) == k then [fields[n].value] else [])
  }

  /** The names in use, in the order they were first seen. */
  function Names(fields: seq<Field>): seq<string> {
    if fields == [] then []
    else
      var n := |fields| - 1;
      var rest, k := Names(fields[..n]), Lower(fields[n].key);
      if k in rest then rest else rest + [k]
  }

  lemma {:induction false} NamesSpec(fields: seq<Field>, k: string)
    ensures k in Names(fields) <==> exists f :: f in fields && Lower(f.key) == k
    ensures k in Names(fields) <==> Values(fields, k) != []
  {
    if fields != [] {
      var n := |fields| - 1;
      NamesSpec(fields[..n], k);
      assert fields == fields[..n] + [fields[n]];
    }
  }

  lemma {:induction false} NamesDistinct(fields: seq<Field>)
    ensures forall i, j :: 0 <= i < j < |Names(fields)| ==> Names(fields)[i] != Names(fields)[j]
  {
    if fields != [] {
      NamesDistinct(fields[..|fields| - 1]);
    }
  }

  // ---- what the table keeps ----

  /** http_headers_set: a known name gains a value, a new one gets a list if a slot is free, else it is dropped. */
  function SetField(m: map<string, seq<string>>, capacity: nat, f: Field): map<string, seq<string>> {
    var k := Lower(f.key);
    if k in m then m[k := m[k] + [f.value]]
    else if |m| < capacity then m[k := [f.value]]
    else m
  }

  function SetAll(capacity: nat, fields: seq<Field>): map<string, seq<string>> {
    if fields == [] then map[]
    else SetField(SetAll(capacity, fields[..|fields| - 1]), capacity, fields[|fields| - 1])
  }

  /** The names that found a slot. */
  function Admitted(capacity: nat, fields: seq<Field>): seq<string> {
    if |Names(fields)| <= capacity then Names(fields) else Names(fields)[..capacity]
  }

  /** A run of sets keeps, for the first names up to the capacity, every value in arrival order, and nothing else. */
  lemma {:induction false} SetAllSpec(capacity: nat, fields: seq<Field>)
    ensures var m := SetAll(capacity, fields);
            && |m| == |Admitted(capacity, fields)|
            && forall k :: (k in m <==> k in Admitted(capacity, fields)) && (k in m ==> m[k] == Values(fields, k))
  {
    if fields != [] {
      var n := |fields| - 1;
      var rest, f := fields[..n], fields[n];
      SetAllSpec(capacity, rest);
      AdmittedStep(capacity, fields);
      NamesSpec(rest, Lower(f.key));
    }
  }

  lemma AdmittedStep(capacity: nat, fields: seq<Field>)
    requires fields != []
    ensures var rest, k := fields[..|fields| - 1], Lower(fields[|fields| - 1].key);
            var a := Admitted(capacity, rest);
            Admitted(capacity, fields) == if k in a || |a| == capacity then a else a + [k]
  {
    var n := |fields| - 1;
    var names, k := Names(fields[..n]), Lower(fields[n].key);
    if |names| < capacity {
      assert Admitted(capacity, fields[..n]) == names;
    } else {
      assert (names + [k])[..capacity] == names[..capacity];
      assert names[..capacity] == Admitted(capacity, fields[..n]);
    }
  }

  /** The table answers every lookup like the multimap exactly when no more names than slots were used. */
  lemma AgreesExactly(capacity: nat, fields: seq<Field>)
    ensures (forall k :: Values(fields, k) ==
              (if k in SetAll(capacity, fields) then SetAll(capacity, fields)[k] else []))
      <==> |Names(fields)| <= capacity
  {
    SetAllSpec(capacity, fields);
    var m, names := SetAll(capacity, fields), Names(fields);
    if |names| <= capacity {
      forall k ensures Values(fields, k) == (if k in m then m[k] else []) {
        NamesSpec(fields, k);
      }
    } else {
      NamesDistinct(fields);
      var k := names[capacity];
      NamesSpec(fields, k);
      assert k !in m;
    }
  }

  // ---- reading header lines ----

  const CRLF := "\r\n"

  /** sv_split_str. */
  function SplitStr(s: string, t: string): (string, string) {
    match Find(s, t)
    case None => (s, "")
    case Some(i) => if i + |t| <= |s| then (s[..i], s[i + |t|..]) else (s, "")
  }

  /** One header line as name and value; leading blanks go, others stay. */
  function FieldOf(line: string): Field {
    var (key, value) := Split(line, ':');
    Field(TrimLeft(key), TrimLeft(value))
  }

  /** Content-Length is known by its exact spelling and has to be a number all through. */
  predicate BadLength(f: Field) {
    f.key == "Content-Length" && EndOf(f.value) != Some(|f.value|)
  }

  /** The fields taken before an empty name or value, or a bad Content-Length, ends the loop. */
  function FieldsIn(s: string): seq<Field>
    decreases |s|
  {
    if s == "" then []
    else
      FindSpec(s, CRLF);
      var (line, rest) := SplitStr(s, CRLF);
      var f := FieldOf(line);
      if f.key == "" || f.value == "" || BadLength(f) then [] else [f] + FieldsIn(rest)
  }

  /** The length announced last, None if one was bad. */
  function LengthIn(s: string, length: int): Option<int>
    decreases |s|
  {
    if s == "" then Some(length)
    else
      FindSpec(s, CRLF);
      var (line, rest) := SplitStr(s, CRLF);
      var f := FieldOf(line);
      if f.key == "" || f.value == "" then Some(length)
      else if BadLength(f) then None
      else LengthIn(rest, if f.key == "Content-Length" then LongOf(f.value) else length)
  }

  /** A field a client may send as "name: value". */
  predicate Writable(f: Field) {
    && f.key != "" && !IsSpace(f.key[0]) && ':' !in f.key && '\r' !in f.key
    && f.value != "" && !IsSpace(f.value[0]) && '\r' !in f.value
  }

  predicate Sendable(f: Field) {
    Writable(f) && !BadLength(f)
  }

  /** With blanks and tabs before the name and before the value. */
  function LineOf(f: Field, gap: string): string {
    gap + f.key + ":" + (gap + f.value)
  }

  function HeaderText(fields: seq<Field>, gap: string): string {
    if fields == [] then "" else LineOf(fields[0], gap) + CRLF + HeaderText(fields[1..], gap)
  }

  lemma LineCut(line: string, more: string)
    requires '\r' !in line
    ensures SplitStr(line + (CRLF + more), CRLF) == (line, more)
  {
    var s := line + (CRLF + more);
    var i := |line|;
    assert s[i..i + 2] == CRLF;
    forall j: nat | j < i ensures !OccursAt(s, CRLF, j) {
      assert s[j] == line[j];
      assert j + 2 <= |s| ==> s[j..j + 2][0] == s[j];
    }
    FindIs(s, CRLF, i);
    assert s[i + 2..] == more;
  }

  lemma FieldCut(f: Field, gap: string)
    requires Writable(f) && Gap(gap)
    ensures '\r' !in LineOf(f, gap) && FieldOf(LineOf(f, gap)) == f
  {
    var key := gap + f.key;
    assert ':' !in key && Blanks(gap);
    SplitAt(key, ':', gap + f.value);
    assert key + [':'] + (gap + f.value) == LineOf(f, gap);
    TrimLeftAround(gap, f.key);
    TrimLeftAround(gap, f.value);
  }

  /** A line that ends the headers: an empty one, one without a colon, or one with nothing on a side of its colon. */
  ghost predicate Ends(line: string) {
    && '\r' !in line
    && (':' !in line || exists key, value :: HalfEmpty(line, key, value))
  }

  predicate HalfEmpty(line: string, key: string, value: string) {
    line == key + ":" + value && ':' !in key && (Blanks(key) || Blanks(value))
  }

  lemma EndsHeaders(line: string)
    requires Ends(line)
    ensures FieldOf(line).key == "" || FieldOf(line).value == ""
  {
    TrimLeftAround("", "");
    if ':' in line {
      var key, value :| HalfEmpty(line, key, value);
      SplitAt(key, ':', value);
      assert line == key + [':'] + value;
      if Blanks(key) {
        assert key + "" == key;
        TrimLeftAround(key, "");
      } else {
        assert value + "" == value;
        TrimLeftAround(value, "");
      }
    }
  }

  /**
   Header lines as a client writes them are read as the fields they name, up to the first line that ends them;
   that is the blank line, but also a field without a value, which hides every field after it.
   */
  lemma {:induction false} SentFieldsAreRead(fields: seq<Field>, gap: string, last: string, body: string)
    requires Gap(gap) && Ends(last) && forall f :: f in fields ==> Sendable(f)
    ensures FieldsIn(HeaderText(fields, gap) + (last + (CRLF + body))) == fields
  {
    var s := HeaderText(fields, gap) + (last + (CRLF + body));
    if fields == [] {
      assert s == last + (CRLF + body);
      LineCut(last, body);
      EndsHeaders(last);
      hide SplitStr, FieldOf, BadLength;
    } else {
      var f, more := fields[0], HeaderText(fields[1..], gap) + (last + (CRLF + body));
      assert f in fields;
      FirstLine(fields, gap, last + (CRLF + body));
      hide SplitStr, BadLength, Sendable, FieldsIn, FieldOf, HeaderText, LineOf, Ends;
      FieldCut(f, gap);
      LineCut(LineOf(f, gap), more);
      SentFieldsAreRead(fields[1..], gap, last, body);
      TakesField(s, LineOf(f, gap), more, f);
      assert [f] + fields[1..] == fields;
    }
  }

  // ---- the announced length ----

  /** Digits after an optional sign, for a number that fits. */
  predicate IsNumber(v: string) {
    var digits := if v != "" && IsSign(v[0]) then v[1..] else v;
    digits != "" && AllDigits(digits) && LeadingValue(digits, 0) <= LONG_MAX
  }

  function NumberIn(v: string): int {
    Signed(LeadingValue(if v != "" && IsSign(v[0]) then v[1..] else v, 0), v != "" && v[0] == '-')
  }

  predicate Spoils(f: Field) {
    f.key == "Content-Length" && !IsNumber(f.value)
  }

  /** The value of the last Content-Length, `none` without one. */
  function LastLength(fields: seq<Field>, none: int): int {
    if fields == [] then none
    else
      var last := fields[|fields| - 1];
      if last.key == "Content-Length" then NumberIn(last.value) else LastLength(fields[..|fields| - 1], none)
  }

  lemma SpoilsIsBad(f: Field)
    ensures BadLength(f) <==> Spoils(f)
    ensures f.key == "Content-Length" && !BadLength(f) ==> LongOf(f.value) == NumberIn(f.value)
  {
    LongReadsAll(f.value);
  }

  lemma {:induction false} LastLengthFirst(f: Field, more: seq<Field>, none: int)
    ensures LastLength([f] + more, none) ==
            LastLength(more, if f.key == "Content-Length" then NumberIn(f.value) else none)
  {
    hide NumberIn;
    if more == [] {
      assert [f] + more == [f] && [f][..0] == [];
    } else {
      var n := |more| - 1;
      assert ([f] + more)[..n + 1] == [f] + more[..n] && ([f] + more)[n + 1] == more[n];
      LastLengthFirst(f, more[..n], none);
    }
  }

  /**
   Header lines as a client writes them announce the value of the last Content-Length, and what was announced
   before without one; the request is refused if and only if one of them is no number that fits.
   */
  lemma {:induction false} SentLengthIsRead(fields: seq<Field>, gap: string, last: string, body: string, length: int)
    requires Gap(gap) && Ends(last) && forall f :: f in fields ==> Writable(f)
    ensures LengthIn(HeaderText(fields, gap) + (last + (CRLF + body)), length) ==
            if exists f :: f in fields && Spoils(f) then None else Some(LastLength(fields, length))
  {
    var s := HeaderText(fields, gap) + (last + (CRLF + body));
    if fields == [] {
      assert s == last + (CRLF + body);
      LineCut(last, body);
      EndsHeaders(last);
      hide SplitStr, FieldOf, BadLength;
    } else {
      var f, more := fields[0], HeaderText(fields[1..], gap) + (last + (CRLF + body));
      assert f in fields;
      FirstLine(fields, gap, last + (CRLF + body));
      hide SplitStr, BadLength, Writable, FieldsIn, FieldOf, HeaderText, LineOf, Ends, LengthIn, Spoils, NumberIn;
      FieldCut(f, gap);
      LineCut(LineOf(f, gap), more);
      LoopUnfold(s, length);
      SpoilsIsBad(f);
      NameAndValue(f);
      var next := if f.key == "Content-Length" then LongOf(f.value) else length;
      SentLengthIsRead(fields[1..], gap, last, body, next);
      LastLengthFirst(f, fields[1..], length);
      assert fields == [f] + fields[1..];
    }
  }

  lemma NameAndValue(f: Field)
    requires Writable(f)
    ensures f.key != "" && f.value != ""
  {
  }

  lemma FirstLine(fields: seq<Field>, gap: string, tail: string)
    requires fields != []
    ensures HeaderText(fields, gap) + tail == LineOf(fields[0], gap) + (CRLF + (HeaderText(fields[1..], gap) + tail))
  {
    hide LineOf;
    var l, h := LineOf(fields[0], gap), HeaderText(fields[1..], gap);
    Assoc(l + CRLF, h, tail);
    Assoc(l, CRLF, h + tail);
  }

  lemma TakesField(s: string, line: string, rest: string, f: Field)
    requires s != "" && SplitStr(s, CRLF) == (line, rest) && FieldOf(line) == f && Sendable(f)
    ensures FieldsIn(s) == [f] + FieldsIn(rest)
  {
    hide FieldOf, SplitStr, BadLength;
  }

  lemma LoopUnfold(s: string, length: int)
    requires s != ""
    ensures var (line, rest) := SplitStr(s, CRLF);
            var f := FieldOf(line);
            && |rest| < |s|
            && (f.key == "" || f.value == "" ==> FieldsIn(s) == [] && LengthIn(s, length) == Some(length))
            && (f.key != "" && f.value != "" && BadLength(f) ==> FieldsIn(s) == [] && LengthIn(s, length) == None)
            && (f.key != "" && f.value != "" && !BadLength(f) ==>
                  && FieldsIn(s) == [f] + FieldsIn(rest)
                  && LengthIn(s, length) ==
                     LengthIn(rest, if f.key == "Content-Length" then LongOf(f.value) else length))
  {
    FindSpec(s, CRLF);
    hide FieldOf, BadLength;
  }

  method CutLine(s: string) returns (line: string, rest: string)
    ensures (line, rest) == SplitStr(s, CRLF)
  {
    var i := SvFind(s, CRLF);
    FindSpec(s, CRLF);
    if i.None? {
      return s, "";
    }
    line, rest := s[..i.value], s[i.value + 2..];
  }

  method CutField(line: string) returns (f: Field)
    ensures f == FieldOf(line)
  {
    var key, value := SvSplitDelim(line, ':');
    f := Field(TrimLeft(key), TrimLeft(value));
  }

  /** Where the loop stands: text left, finished, or a bad length. */
  datatype Step = More(rest: string, length: int) | Done(length: int) | Wrong

  /** What is taken and what is left make up the whole. */
  ghost predicate Agrees(step: Step, taken: seq<Field>, text: string) {
    match step
    case More(rest, length) => taken + FieldsIn(rest) == FieldsIn(text) && LengthIn(rest, length) == LengthIn(text, 0)
    case Done(length) => taken == FieldsIn(text) && LengthIn(text, 0) == Some(length)
    case Wrong => taken == FieldsIn(text) && LengthIn(text, 0) == None
  }

  lemma NothingTaken(text: string)
    ensures Agrees(More(text, 0), [], text) && SetAll(HTTP_HEADER_CAPACITY, []) == map[]
  {
    assert [] + FieldsIn(text) == FieldsIn(text);
  }

  /** One pass of the loop: a field to set, if any, and where the loop stands then. */
  method ReadField(s: string, length: int, ghost taken: seq<Field>, ghost text: string)
    returns (f: Option<Field>, step: Step)
    requires Agrees(More(s, length), taken, text)
    ensures Agrees(step, if f.Some? then taken + [f.value] else taken, text)
    ensures step.More? ==> |step.rest| < |s|
  {
    hide FieldsIn, LengthIn;
    assert taken + [] == taken;
    if s == "" {
      EndOfText(length);
      return None, Done(length);
    }
    LoopUnfold(s, length);
    var line, rest := CutLine(s);
    var g := CutField(line);
    Assoc(taken, [g], FieldsIn(rest));
    hide FieldOf, SplitStr;
    if g.key == "" || g.value == "" {
      return None, Done(length);
    }
    var contentLength := length;
    if g.key == "Content-Length" {
      var long, end := SvToLong(g.value);
      if end != Some(|g.value|) {
        return None, Wrong;
      }
      contentLength := long;
    }
    f, step := Some(g), More(rest, contentLength);
  }

  lemma EndOfText(length: int)
    ensures FieldsIn("") == [] && LengthIn("", length) == Some(length)
  {
  }

  // ---- the objects ----

  class HeaderValues {
    var data: seq<string>

    constructor (value: string)
      ensures data == [value]
    {
      data := [value];
    }

    method Append(value: string)
      modifies this
      ensures data == old(data) + [value]
    {
      data := data + [value];
    }
  }

  ghost predicate Distinct(lists: map<string, HeaderValues>) {
    forall k, l :: k in lists && l in lists && k != l ==> lists[k] != lists[l]
  }

  lemma InsertedLists(before: map<string, HeaderValues>, after: map<string, HeaderValues>, f: Field,
                      list: HeaderValues, ok: bool)
    requires SetResult(before, HTTP_HEADER_CAPACITY, f.key, list, ok, after) && Lower(f.key) !in before
    requires Distinct(before) && list !in before.Values
    ensures Distinct(after) && after.Values <= before.Values + {list}
    ensures forall k :: k in before ==> k in after && after[k] == before[k]
    ensures Lower(f.key) in after ==> after[Lower(f.key)] == list
  {
    assert forall k :: k in before ==> before[k] in before.Values;
  }

  lemma InsertedFields(before: map<string, HeaderValues>, after: map<string, HeaderValues>,
                       fields: map<string, seq<string>>, fields': map<string, seq<string>>, f: Field,
                       list: HeaderValues, ok: bool)
    requires SetResult(before, HTTP_HEADER_CAPACITY, f.key, list, ok, after) && Lower(f.key) !in before
    requires fields.Keys == before.Keys && fields'.Keys == after.Keys
    requires forall k :: k in before ==> fields'[k] == fields[k]
    requires Lower(f.key) in after ==> fields'[Lower(f.key)] == [f.value]
    ensures fields' == SetField(fields, HTTP_HEADER_CAPACITY, f)
  {
    assert |fields| == |fields.Keys| == |before.Keys| == |before|;
    assert forall k :: k in fields <==> k in before;
    assert forall k :: k in fields' <==> k in after;
  }

  class Headers {
    const table: HashTable<HeaderValues>
    ghost var lists: map<string, HeaderValues>

    /** The table holds one list of its own for each name. */
    ghost predicate Valid()
      reads this, table, table.entries
    {
      && table.Valid()
      && table.entries.Length == HTTP_HEADER_CAPACITY
      && lists == table.Map()
      && Distinct(lists)
    }

    /** The multimap the objects spell out. */
    ghost function Fields(): map<string, seq<string>>
      reads this, lists.Values
    {
      map k | k in lists :: lists[k].data
    }

    constructor ()
      ensures Valid() && lists == map[] && Fields() == map[] && fresh(table) && fresh(table.entries)
    {
      table := new HashTable(HTTP_HEADER_CAPACITY);
      lists := map[];
    }

    method Set(f: Field)
      requires Valid()
      modifies this, table, table.entries, lists.Values
      ensures Valid() && Fields() == SetField(old(Fields()), HTTP_HEADER_CAPACITY, f)
      ensures fresh(lists.Values - old(lists.Values))
    {
      hide Good, Contents;
      var found := table.Get(f.key);
      match found
      case Some(list) => Extend(f, list);
      case None => Insert(f);
    }

    method Extend(f: Field, list: HeaderValues)
      requires Valid() && Lower(f.key) in lists && lists[Lower(f.key)] == list
      modifies list
      ensures Valid()
      ensures Fields() == SetField(old(Fields()), HTTP_HEADER_CAPACITY, f)
    {
      hide Good, Contents, HashTable.Map, HashTable.Valid;
      ghost var fields, k := Fields(), Lower(f.key);
      assert fields[k] == list.data;
      list.Append(f.value);
      assert forall l :: l in lists && l != k ==> lists[l].data == fields[l];
    }

    method Insert(f: Field)
      requires Valid() && Lower(f.key) !in lists
      modifies this, table, table.entries
      ensures Valid() && fresh(lists.Values - old(lists.Values))
      ensures Fields() == SetField(old(Fields()), HTTP_HEADER_CAPACITY, f)
    {
      hide Good, Contents, SetResult, Distinct, SetField, HashTable.Valid, HashTable.Map;
      ghost var fields, before := Fields(), lists;
      var list := new HeaderValues(f.value);
      assert list !in before.Values;
      var ok := table.Set(f.key, list);
      lists := table.Map();
      InsertedLists(before, lists, f, list, ok);
      InsertedFields(before, lists, fields, Fields(), f, list, ok);
    }

    /** http_headers_get: the list itself, so what it holds now. */
    method Get(key: string) returns (r: Option<HeaderValues>)
      requires Valid()
      ensures r.Some? <==> Lower(key) in Fields()
      ensures r.Some? ==> r.value.data == Fields()[Lower(key)]
    {
      r := table.Get(key);
    }

    /** The header loop of http_parse_request; None is a parse error. */
    method ReadFields(text: string) returns (length: Option<int>)
      requires Valid() && lists == map[]
      modifies this, table, table.entries
      ensures Valid() && Fields() == SetAll(HTTP_HEADER_CAPACITY, FieldsIn(text))
      ensures length == LengthIn(text, 0)
    {
      hide Good, Contents, SetField, SetAll, FieldsIn, LengthIn;
      var step := More(text, 0);
      ghost var taken: seq<Field> := [];
      NothingTaken(text);
      while step.More?
        invariant Valid() && fresh(lists.Values) && Fields() == SetAll(HTTP_HEADER_CAPACITY, taken)
        invariant Agrees(step, taken, text)
        decreases step.More?, if step.More? then |step.rest| else 0
      {
        var f;
        f, step := ReadField(step.rest, step.length, taken, text);
        if f.Some? {
          SetNext(f.value, taken);
          taken := taken + [f.value];
        }
      }
      length := if step.Done? then Some(step.length) else None;
    }

    method SetNext(f: Field, ghost taken: seq<Field>)
      requires Valid() && Fields() == SetAll(HTTP_HEADER_CAPACITY, taken)
      modifies this, table, table.entries, lists.Values
      ensures Valid() && Fields() == SetAll(HTTP_HEADER_CAPACITY, taken + [f])
      ensures fresh(lists.Values - old(lists.Values))
    {
      hide Good, Contents, SetField;
      assert (taken + [f])[..|taken|] == taken;
      Set(f);
    }
  }
}
