/**
 bufio.c: a window over a transport that hands out the stream in arbitrary pieces.

 The contracts speak about two things only: Pending(), all bytes the reader can still hand out
 (its window followed by what the transport will deliver), and Room(), how many of them fit in
 the window without moving it again. How the transport cuts the stream never shows in an outcome.
 */
module BufferedIO {
  import opened Views

  // ---- the transport ----

  /** What the next raw read meets. Data is handed out in as many reads as it takes. */
  datatype Event = Data(bytes: string) | Retry | Broken

  /** What the next raw write meets: at most n bytes taken, EAGAIN, or a failure. */
  datatype Ack = Accept(n: nat) | Busy | Refuse

  datatype ReadResult = Bytes(n: nat) | ReadAgain | ReadZero | ReadError
  datatype WriteResult = Wrote(n: nat) | WriteAgain | WriteZero | WriteError

  datatype IoError = EndOfStream | MessageTooLarge | ReadFailed
  datatype Outcome<+T> = Ok(value: T) | Err(error: IoError)

  /** The bytes delivered before the stream ends or breaks; an end of file and a failure both stay. */
  function SupplyOf(script: seq<Event>): string {
    if script == [] then ""
    else match script[0]
      case Retry => SupplyOf(script[1..])
      case Broken => ""
      case Data(b) => if b == "" then "" else b + SupplyOf(script[1..])
  }

  /** How the stream ends once the supply is used up. */
  function EndOf(script: seq<Event>): IoError {
    if script == [] then EndOfStream
    else match script[0]
      case Retry => EndOf(script[1..])
      case Broken => ReadFailed
      case Data(b) => if b == "" then EndOfStream else EndOf(script[1..])
  }

  predicate Healthy(acks: seq<Ack>) {
    forall a :: a in acks ==> a != Refuse && a != Accept(0)
  }

  class Transport {
    var input: seq<Event>
    var acks: seq<Ack>
    var sent: string

    constructor (input: seq<Event>, acks: seq<Ack>)
      ensures this.input == input && this.acks == acks && sent == ""
    {
      this.input, this.acks, this.sent := input, acks, "";
    }

    ghost function Supply(): string
      reads this`input
    {
      SupplyOf(input)
    }

    /** read(2) or SSL_read: 1..n bytes, a retry, end of file, or an error. */
    method RawRead(dst: array<char>, off: nat, n: nat) returns (r: ReadResult)
      requires 1 <= n && off + n <= dst.Length
      modifies this`input, dst
      ensures EndOf(input) == old(EndOf(input))
      ensures dst[..off] == old(dst[..off])
      ensures r.Bytes? ==> 1 <= r.n <= n && r.n <= |old(Supply())|
      ensures r.Bytes? ==> dst[off..off + r.n] == old(Supply())[..r.n] && Supply() == old(Supply())[r.n..]
      ensures !r.Bytes? ==> Supply() == old(Supply()) && dst[..] == old(dst[..])
      ensures r.ReadAgain? ==> |input| < |old(input)|
      ensures r.ReadZero? ==> Supply() == "" && EndOf(input) == EndOfStream
      ensures r.ReadError? ==> Supply() == "" && EndOf(input) == ReadFailed
    {
      if input == [] {
        return ReadZero;
      }
      match input[0]
      case Retry =>
        input := input[1..];
        r := ReadAgain;
      case Broken =>
        r := ReadError;
      case Data(b) =>
        if b == "" {
          return ReadZero;
        }
        var k := if |b| < n then |b| else n;
        forall i | 0 <= i < k {
          dst[off + i] := b[i];
        }
        ghost var rest := SupplyOf(input[1..]);
        assert Supply() == b + rest;
        if k == |b| {
          input := input[1..];
        } else {
          input := [Data(b[k..])] + input[1..];
        }
        assert Supply() == (b + rest)[k..];
        assert dst[off..off + k] == b[..k] == (b + rest)[..k];
        r := Bytes(k);
    }

    /** write(2) or SSL_write: 1..n bytes taken, a retry, zero, or an error. */
    method RawWrite(src: array<char>, off: nat, n: nat) returns (r: WriteResult)
      requires 1 <= n && off + n <= src.Length
      modifies this`acks, this`sent
      ensures r.Wrote? ==> 1 <= r.n <= n && sent == old(sent) + src[off..off + r.n]
      ensures !r.Wrote? ==> sent == old(sent)
      ensures r.WriteAgain? ==> |acks| < |old(acks)|
      ensures |acks| <= |old(acks)|
      ensures old(Healthy(acks)) ==> Healthy(acks) && (r.Wrote? || r.WriteAgain?)
    {
      assert acks != [] ==> acks[0] in acks;
      assert acks != [] ==> forall a :: a in acks[1..] ==> a in acks;
      if acks == [] {
        sent := sent + src[off..off + n];
        return Wrote(n);
      }
      match acks[0]
      case Busy =>
        acks := acks[1..];
        r := WriteAgain;
      case Refuse =>
        r := WriteError;
      case Accept(m) =>
        if m == 0 {
          return WriteZero;
        }
        var k := if m < n then m else n;
        sent := sent + src[off..off + k];
        acks := acks[1..];
        r := Wrote(k);
    }
  }

  lemma {:induction false} EndIsNotTooLarge(script: seq<Event>)
    ensures EndOf(script) != MessageTooLarge
  {
    if script != [] {
      EndIsNotTooLarge(script[1..]);
    }
  }

  // ---- what a read returns, said about the stream ----

  /** The prefix p[..e] ends in term. */
  predicate EndsAt(p: string, term: string, e: nat) {
    |term| <= e <= |p| && p[e - |term|..e] == term
  }

  /** Where the shortest prefix of p that ends in term ends. */
  function RecordEnd(p: string, term: string): (r: Option<nat>)
    ensures r.Some? ==> |term| <= r.value <= |p|
  {
    FindSpec(p, term);
    match Find(p, term)
    case Some(i) => Some(i + |term|)
    case None => None
  }

  lemma RecordEndSpec(p: string, term: string)
    ensures RecordEnd(p, term).Some? ==>
              EndsAt(p, term, RecordEnd(p, term).value) && NoneBefore(p, term, RecordEnd(p, term).value)
    ensures RecordEnd(p, term).None? ==> forall e: nat :: !EndsAt(p, term, e)
  {
    FindSpec(p, term);
    assert forall e: nat :: EndsAt(p, term, e) ==> OccursAt(p, term, e - |term|);
  }

  /** A record is returned if it ends within the room; else a full window, else the end, is reported. */
  function UntilOutcome(p: string, term: string, room: nat, end: IoError): Outcome<string> {
    var e := RecordEnd(p, term);
    if e.Some? && e.value <= room then Ok(p[..e.value])
    else if |p| >= room then Err(MessageTooLarge)
    else Err(end)
  }

  function CountOutcome(p: string, n: nat, room: nat, end: IoError): Outcome<string> {
    if n <= room && n <= |p| then Ok(p[..n])
    else if |p| >= room then Err(MessageTooLarge)
    else Err(end)
  }

  /** The whole record is added and the rest stays, or there is no record and nothing is lost. */
  predicate Delivered(p: string, term: string, end: IoError, r: Option<IoError>, added: string, rest: string) {
    match RecordEnd(p, term)
    case Some(e) => r.None? && added == p[..e] && rest == p[e..]
    case None => r == Some(end) && added + rest == p
  }

  /** What is left of p once r has been handed out. */
  function Left(p: string, r: Outcome<string>): string {
    if r.Ok? && |r.value| <= |p| then p[|r.value|..] else p
  }

  lemma RecordEndIs(p: string, term: string, e: nat)
    requires EndsAt(p, term, e)
    requires NoneBefore(p, term, e)
    ensures RecordEnd(p, term) == Some(e)
  {
    RecordEndSpec(p, term);
  }

  /** A terminator inside the window is the first of the whole stream. */
  lemma RecordInWindow(w: string, s: string, term: string)
    ensures Find(w, term).Some? ==>
              Find(w, term).value + |term| <= |w| && RecordEnd(w + s, term) == Some(Find(w, term).value + |term|)
    ensures Find(w, term).None? ==> RecordEnd(w + s, term).None? || RecordEnd(w + s, term).value > |w|
  {
    RecordEndSpec(w + s, term);
    FindSpec(w, term);
    if Find(w, term).Some? {
      FindPrefix(w, s, term);
    } else {
      forall e: nat | e <= |w| ensures !EndsAt(w + s, term, e) {
        if |term| <= e {
          assert (w + s)[e - |term|..e] == w[e - |term|..e];
          assert e - |term| <= |w| && !OccursAt(w, term, e - |term|);
        }
      }
    }
  }

  /** No record ends before position e. */
  ghost predicate NoneBefore(p: string, term: string, e: nat) {
    forall k: nat :: k < e ==> !EndsAt(p, term, k)
  }

  lemma EndsAtShift(p: string, term: string, d: nat, e: nat)
    requires d <= |p|
    ensures EndsAt(p[d..], term, e) <==> e >= |term| && EndsAt(p, term, d + e)
  {
    if |term| <= e && d + e <= |p| {
      assert p[d..][e - |term|..e] == p[d + e - |term|..d + e];
    }
  }

  /** Bytes no record ends in may be set aside if the last |term| - 1 of them are kept. */
  lemma RecordAfterDrain(p: string, term: string, d: nat)
    requires d <= |p| && NoneBefore(p, term, d + |term|)
    ensures RecordEnd(p[d..], term).Some? ==> RecordEnd(p, term) == Some(d + RecordEnd(p[d..], term).value)
    ensures RecordEnd(p[d..], term).None? ==> RecordEnd(p, term).None?
  {
    RecordEndSpec(p, term);
    var r := RecordEnd(p, term);
    var q := p[d..];
    if r.Some? {
      var e := r.value - d;
      EndsAtShift(p, term, d, e);
      forall k: nat | k < e ensures !EndsAt(q, term, k) {
        EndsAtShift(p, term, d, k);
      }
      RecordEndIs(q, term, e);
    } else {
      RecordEndSpec(q, term);
      if RecordEnd(q, term).Some? {
        EndsAtShift(p, term, d, RecordEnd(q, term).value);
      }
    }
  }

  /** After a full window without a record, all but its last |term| - 1 bytes can go. */
  lemma DrainStep(p: string, term: string, d: nat, emit: nat)
    requires d <= |p| && NoneBefore(p, term, d + |term|)
    requires RecordEnd(p[d..], term).None? || RecordEnd(p[d..], term).value >= emit + |term|
    ensures NoneBefore(p, term, d + emit + |term|)
  {
    RecordAfterDrain(p, term, d);
    RecordEndSpec(p, term);
  }

  lemma SliceTakeDrop(s: string, i: nat, j: nat, n: nat)
    requires i + n <= j <= |s|
    ensures s[i..j][..n] == s[i..i + n]
    ensures s[i..j][n..] == s[i + n..j]
  {
  }

  lemma TakeDrop(w: string, s: string, n: nat)
    requires n <= |w|
    ensures (w + s)[..n] == w[..n]
    ensures (w + s)[n..] == w[n..] + s
  {
  }

  lemma Regroup(w: string, s: string, n: nat)
    requires n <= |s|
    ensures (w + s[..n]) + s[n..] == w + s
  {
    assert s[..n] + s[n..] == s;
  }

  lemma PrefixStays(o: string, data: string, i: nat)
    requires i <= |data|
    ensures o + data[..i] <= o + data
  {
  }

  lemma PieceJoins(o: string, data: string, i: nat, n: nat)
    requires i + n <= |data|
    ensures o + data[..i] + data[i..i + n] == o + data[..i + n]
  {
    assert data[..i + n] == data[..i] + data[i..i + n];
  }

  lemma UntilOk(p: string, term: string, room: nat, end: IoError)
    requires UntilOutcome(p, term, room, end).Ok?
    ensures var v := UntilOutcome(p, term, room, end).value;
            |v| <= |p| && v == p[..|v|] && RecordEnd(p, term) == Some(|v|)
  {
  }

  lemma SplitAgain(p: string, d: nat, n: nat)
    requires d + n <= |p|
    ensures p[..d] + p[d..][..n] == p[..d + n]
    ensures p[d..][n..] == p[d + n..]
  {
  }

  lemma Appended(o: string, a: string, v: string)
    ensures o <= o + a + v && (o + a + v)[|o|..] == a + v
  {
  }

  lemma DrainedRecord(p: string, term: string, d: nat, room: nat, end: IoError, o: string, v: string)
    requires d <= |p| && NoneBefore(p, term, d + |term|)
    requires UntilOutcome(p[d..], term, room, end) == Ok(v)
    ensures o <= o + p[..d] + v
    ensures Delivered(p, term, end, None, (o + p[..d] + v)[|o|..], p[d..][|v|..])
  {
    RecordAfterDrain(p, term, d);
    assert RecordEnd(p, term) == Some(d + |v|) && d + |v| <= |p| && v == p[d..][..|v|] by {
      UntilOk(p[d..], term, room, end);
    }
    SplitAgain(p, d, |v|);
    Appended(o, p[..d], v);
  }

  lemma DrainedEnd(p: string, term: string, d: nat, end: IoError, o: string)
    requires d <= |p| && NoneBefore(p, term, d + |term|)
    requires RecordEnd(p[d..], term).None?
    ensures o <= o + p[..d]
    ensures Delivered(p, term, end, Some(end), (o + p[..d])[|o|..], p[d..])
  {
    RecordAfterDrain(p, term, d);
    assert (o + p[..d])[|o|..] == p[..d];
    SplitAgain(p, d, |p| - d);
  }

  // ---- the buffer ----

  class BufIO {
    var transport: Transport
    const rbuf: array<char>
    var consumed: nat
    var filled: nat
    const wbuf: array<char>
    var written: nat

    ghost predicate Valid()
      reads this
    {
      && rbuf.Length >= 1 && wbuf.Length >= 1 && rbuf != wbuf
      && consumed <= filled <= rbuf.Length
      && written <= wbuf.Length
    }

    /** Read but not yet handed out. */
    ghost function Window(): string
      reads this, rbuf
      requires Valid()
    {
      rbuf[consumed..filled]
    }

    ghost function Pending(): string
      reads this, rbuf, transport`input
      requires Valid()
    {
      Window() + transport.Supply()
    }

    ghost function Held(): int
      reads this
    {
      filled - consumed
    }

    /** Where the window starts the next time the buffer is filled. */
    ghost function Base(): nat
      reads this
    {
      if consumed == filled || consumed > rbuf.Length / 2 then 0 else consumed
    }

    ghost function Room(): (r: nat)
      reads this
      requires Valid()
      ensures rbuf.Length - rbuf.Length / 2 <= r <= rbuf.Length && Held() <= r
    {
      rbuf.Length - Base()
    }

    ghost function End(): IoError
      reads this, transport`input
    {
      EndOf(transport.input)
    }

    /** Accepted for sending: gone out or still buffered. */
    ghost function Output(): string
      reads this, wbuf, transport`sent
      requires Valid()
    {
      transport.sent + wbuf[..written]
    }

    constructor (transport: Transport, capacity: nat, writeCapacity: nat)
      requires capacity >= 1 && writeCapacity >= 1
      ensures Valid() && fresh(rbuf) && fresh(wbuf)
      ensures this.transport == transport && rbuf.Length == capacity && wbuf.Length == writeCapacity
      ensures consumed == filled == written == 0
      ensures Pending() == transport.Supply() && Output() == transport.sent
    {
      this.transport := transport;
      rbuf := new char[capacity];
      wbuf := new char[writeCapacity];
      consumed, filled, written := 0, 0, 0;
    }

    /** Drops what was read ahead; only the transport is left. */
    method ResetRead()
      requires Valid()
      modifies this`consumed, this`filled
      ensures Valid() && consumed == filled == 0
      ensures Pending() == transport.Supply() && End() == old(End())
    {
      consumed := 0;
      filled := 0;
    }

    /** Restarts an empty window, moves one that lies in the upper half to the front. */
    method Compact()
      requires Valid()
      modifies this`consumed, this`filled, rbuf
      ensures Valid() && Window() == old(Window())
      ensures consumed == old(Base()) && Held() == old(Held()) && Room() == old(Room())
    {
      if consumed == filled {
        consumed, filled := 0, 0;
      } else if consumed > rbuf.Length / 2 {
        forall i | 0 <= i < filled - consumed {
          rbuf[i] := rbuf[consumed + i];
        }
        filled := filled - consumed;
        consumed := 0;
      }
    }

    /** One more piece of the stream into the window, or the reason there is none. */
    method Fill() returns (err: Option<IoError>)
      requires Valid()
      modifies this`consumed, this`filled, rbuf, transport`input
      ensures Valid() && Room() == old(Room())
      ensures Pending() == old(Pending()) && End() == old(End())
      ensures err.None? ==> old(Held()) < Held()
      ensures err == Some(MessageTooLarge) <==> old(Held()) == old(Room())
      ensures err.Some? ==> Held() == old(Held())
      ensures err == Some(MessageTooLarge) ==> filled == rbuf.Length
      ensures err.Some? && err.value != MessageTooLarge ==> err.value == End() && transport.Supply() == ""
      ensures End() != MessageTooLarge
    {
      EndIsNotTooLarge(transport.input);
      Compact();
      if filled == rbuf.Length {
        return Some(MessageTooLarge);
      }
      ghost var w, s := Window(), transport.Supply();
      while true
        invariant Valid() && filled < rbuf.Length
        invariant consumed == old(Base()) && Held() == old(Held())
        invariant Window() == w && transport.Supply() == s && End() == old(End())
        decreases |transport.input|
      {
        var before := rbuf[..filled];
        var r := transport.RawRead(rbuf, filled, rbuf.Length - filled);
        assert rbuf[..filled] == before;
        assert Window() == before[consumed..] == w;
        match r
        case ReadAgain =>
        case ReadError => return Some(ReadFailed);
        case ReadZero => return Some(EndOfStream);
        case Bytes(n) =>
          Received(n);
          Regroup(w, s, n);
          return None;
      }
    }

    /** n bytes after the window now belong to it. */
    method Received(n: nat)
      requires Valid() && filled + n <= rbuf.Length
      modifies this`filled
      ensures Valid() && filled == old(filled) + n
      ensures Window() == old(Window()) + rbuf[old(filled)..old(filled) + n]
    {
      filled := filled + n;
    }

    /** Hands out the first n bytes of the window. */
    method Take(n: nat) returns (piece: string)
      requires Valid() && n <= Held()
      modifies this`consumed
      ensures Valid() && consumed == old(consumed) + n
      ensures n <= |old(Pending())| && piece == old(Pending())[..n] && Pending() == old(Pending())[n..]
    {
      ghost var w, s, whole := Window(), transport.Supply(), rbuf[..];
      assert w == whole[consumed..filled];
      SliceTakeDrop(whole, consumed, filled, n);
      piece := rbuf[consumed..consumed + n];
      consumed := consumed + n;
      assert Window() == whole[consumed..filled];
      TakeDrop(w, s, n);
    }

    /** The shortest pending prefix that ends in the terminator, if it fits. */
    method ReadUntil(term: string) returns (r: Outcome<string>)
      requires Valid() && term != ""
      modifies this`consumed, this`filled, rbuf, transport`input
      ensures Valid() && End() == old(End())
      ensures r == UntilOutcome(old(Pending()), term, old(Room()), old(End()))
      ensures Pending() == Left(old(Pending()), r)
      ensures r == Err(MessageTooLarge) ==> filled == rbuf.Length && Held() == Room() == old(Room())
      ensures r.Err? && r.error != MessageTooLarge ==> transport.Supply() == ""
    {
      ghost var p, room := Pending(), Room();
      while true
        invariant Valid() && End() == old(End())
        invariant Pending() == p && Room() == room
        decreases room - Held()
      {
        ghost var supply := transport.Supply();
        var window := rbuf[consumed..filled];
        assert p == window + supply;
        RecordInWindow(window, supply, term);
        if filled > consumed {
          var idx := SvFind(window, term);
          if idx.Some? {
            var end := idx.value + |term|;
            var view := Take(end);
            return Ok(view);
          }
        }
        assert RecordEnd(p, term).None? || RecordEnd(p, term).value > Held();
        var err := Fill();
        if err.Some? {
          return Err(err.value);
        }
      }
    }

    /** The next n pending bytes, if they fit. */
    method ReadN(n: nat) returns (r: Outcome<string>)
      requires Valid()
      modifies this`consumed, this`filled, rbuf, transport`input
      ensures Valid() && End() == old(End())
      ensures r == CountOutcome(old(Pending()), n, old(Room()), old(End()))
      ensures Pending() == Left(old(Pending()), r)
      ensures n <= old(Held()) ==> consumed == old(consumed) + n && filled == old(filled)
      ensures r.Err? && r.error != MessageTooLarge ==> transport.Supply() == ""
    {
      ghost var p, room := Pending(), Room();
      while filled - consumed < n
        invariant Valid() && End() == old(End())
        invariant Pending() == p && Room() == room
        invariant n <= old(Held()) ==> consumed == old(consumed) && filled == old(filled)
        decreases room - Held()
      {
        var err := Fill();
        if err.Some? {
          return Err(err.value);
        }
      }
      var view := Take(n);
      r := Ok(view);
    }

    /** As ReadUntil but never too large: what does not fit is drained into out on the way. */
    method ReadUntilInto(term: string, out: StringBuilder) returns (r: Option<IoError>)
      requires Valid() && term != ""
      requires |term| <= rbuf.Length - rbuf.Length / 2
      modifies this`consumed, this`filled, rbuf, transport`input, out
      ensures Valid() && End() == old(End())
      ensures old(out.contents) <= out.contents
      ensures Delivered(old(Pending()), term, old(End()), r, out.contents[|old(out.contents)|..], Pending())
      ensures r.Some? ==> transport.Supply() == ""
    {
      ghost var p, room := Pending(), Room();
      ghost var o := out.contents;
      var view := ReadUntil(term);
      if view.Ok? {
        UntilOk(p, term, room, End());
        out.PushSv(view.value);
        return None;
      }
      if view.error != MessageTooLarge {
        return Some(view.error);
      }
      r := DrainUntil(term, out, p, o);
    }

    /** d bytes of p went to out, none of them ends a record, and the window is full without one. */
    ghost predicate Draining(term: string, out: StringBuilder, p: string, d: nat, o: string)
      reads this, rbuf, transport`input, out
    {
      && Valid() && 1 <= |term| <= rbuf.Length - rbuf.Length / 2
      && d <= |p| && Pending() == p[d..] && out.contents == o + p[..d]
      && Held() == Room() && NoneBefore(p, term, d + |term|)
      && (RecordEnd(p[d..], term).None? || RecordEnd(p[d..], term).value > Held())
    }

    /** The loop of bufio_read_until_into once a full window has been rejected. */
    method DrainUntil(term: string, out: StringBuilder, ghost p: string, ghost o: string) returns (r: Option<IoError>)
      requires Draining(term, out, p, 0, o)
      modifies this`consumed, this`filled, rbuf, transport`input, out
      ensures Valid() && End() == old(End())
      ensures o <= out.contents && Delivered(p, term, End(), r, out.contents[|o|..], Pending())
      ensures r.Some? ==> transport.Supply() == ""
    {
      ghost var d := 0;
      while true
        invariant Draining(term, out, p, d, o) && End() == old(End())
        decreases |transport.Supply()|
      {
        var view;
        view, d := DrainOnce(term, out, p, d, o);
        if view.Ok? {
          return None;
        }
        if view.error != MessageTooLarge {
          return Some(view.error);
        }
      }
    }

    /** One round: keep the last |term| - 1 bytes, so that a terminator across the cut is still seen. */
    method DrainOnce(term: string, out: StringBuilder, ghost p: string, ghost d: nat, ghost o: string)
      returns (view: Outcome<string>, ghost d': nat)
      requires Draining(term, out, p, d, o)
      modifies this`consumed, this`filled, rbuf, transport`input, out
      ensures Valid() && End() == old(End())
      ensures view == Err(MessageTooLarge) ==>
              Draining(term, out, p, d', o) && |transport.Supply()| < |old(transport.Supply())|
      ensures view != Err(MessageTooLarge) ==> o <= out.contents
      ensures view != Err(MessageTooLarge) ==>
              Delivered(p, term, End(), if view.Ok? then None else Some(view.error), out.contents[|o|..], Pending())
      ensures view.Err? && view.error != MessageTooLarge ==> transport.Supply() == ""
    {
      d' := DrainTail(term, out, p, d, o);
      ghost var room := Room();
      view := ReadUntil(term);
      if view.Ok? {
        DrainedRecord(p, term, d', room, End(), o, view.value);
        out.PushSv(view.value);
      } else if view.error != MessageTooLarge {
        DrainedEnd(p, term, d', End(), o);
      }
    }

    /** Moves out all of the full window but the last |term| - 1 bytes. */
    method DrainTail(term: string, out: StringBuilder, ghost p: string, ghost d: nat, ghost o: string)
      returns (ghost d': nat)
      requires Draining(term, out, p, d, o)
      modifies this`consumed, out
      ensures Valid() && consumed == old(filled) - (|term| - 1)
      ensures d' <= |p| && Pending() == p[d'..] && out.contents == o + p[..d'] && NoneBefore(p, term, d' + |term|)
    {
      var available := filled - consumed;
      d' := d;
      if available > |term| - 1 {
        var emit := available - (|term| - 1);
        DrainStep(p, term, d, emit);
        d' := Drain(emit, out, p, d, o);
      }
    }

    /** Moves emit bytes from the front of the window into out. */
    method Drain(emit: nat, out: StringBuilder, ghost p: string, ghost d: nat, ghost o: string) returns (ghost d': nat)
      requires Valid() && emit <= Held()
      requires d <= |p| && Pending() == p[d..] && out.contents == o + p[..d]
      modifies this`consumed, out
      ensures Valid() && consumed == old(consumed) + emit
      ensures d' == d + emit <= |p| && Pending() == p[d'..] && out.contents == o + p[..d']
    {
      var piece := Take(emit);
      out.PushSv(piece);
      d' := d + emit;
      SplitAgain(p, d, emit);
      assert out.contents == o + (p[..d] + p[d..][..emit]);
    }

    /** The next n pending bytes, whatever n is. */
    method ReadNInto(n: nat, out: StringBuilder) returns (r: Option<IoError>)
      requires Valid()
      modifies this`consumed, this`filled, rbuf, transport`input, out
      ensures Valid() && End() == old(End())
      ensures r.None? <==> n <= |old(Pending())|
      ensures r.None? ==> out.contents == old(out.contents) + old(Pending())[..n] && Pending() == old(Pending())[n..]
      ensures r.Some? ==> r.value == old(End())
      ensures r.Some? ==> out.contents == old(out.contents) + old(Pending()) && Pending() == ""
    {
      ghost var p := Pending();
      ghost var o, d := out.contents, 0;
      var left := n;
      while left > 0
        invariant Valid() && End() == old(End())
        invariant 0 <= left && d + left == n && d <= |p|
        invariant Pending() == p[d..] && out.contents == o + p[..d]
      {
        if filled == consumed {
          var err := Fill();
          if err.Some? {
            assert Pending() == "" == p[d..];
            return err;
          }
        }
        var available := filled - consumed;
        var take := if available < left then available else left;
        d := Drain(take, out, p, d, o);
        left := left - take;
      }
      r := None;
    }

    // ---- writing ----

    /** Sends the write buffer; on failure it is left as it was. */
    method Flush() returns (ok: bool)
      requires Valid()
      modifies this`written, transport`acks, transport`sent
      ensures Valid()
      ensures ok ==> written == 0 && transport.sent == old(Output())
      ensures !ok ==> written == old(written) && old(transport.sent) <= transport.sent <= old(Output())
      ensures old(Healthy(transport.acks)) ==> ok && Healthy(transport.acks)
    {
      var off := 0;
      while off < written
        invariant 0 <= off <= written == old(written)
        invariant transport.sent == old(transport.sent) + wbuf[..off]
        invariant old(Healthy(transport.acks)) ==> Healthy(transport.acks)
        decreases written - off, |transport.acks|
      {
        var r := transport.RawWrite(wbuf, off, written - off);
        match r
        case WriteAgain => continue;
        case WriteError => return false;
        case WriteZero => return false;
        case Wrote(n) =>
          assert wbuf[..off] + wbuf[off..off + n] == wbuf[..off + n];
          off := off + n;
      }
      written := 0;
      ok := true;
    }

    /** Appends to the write buffer, sending it each time it is full. */
    method WbAppend(data: string)
      requires Valid()
      modifies this`written, wbuf, transport`acks, transport`sent
      ensures Valid() && old(transport.sent) <= transport.sent <= old(Output()) + data
      ensures Output() == old(Output()) + data || written == wbuf.Length
      ensures old(Healthy(transport.acks)) ==> Healthy(transport.acks) && Output() == old(Output()) + data
    {
      ghost var o := Output();
      var i := 0;
      while i < |data|
        invariant 0 <= i <= |data| && Valid() && old(transport.sent) <= transport.sent
        invariant Output() == o + data[..i]
        invariant old(Healthy(transport.acks)) ==> Healthy(transport.acks)
      {
        var free := wbuf.Length - written;
        if free == 0 {
          var ok := Flush();
          if !ok {
            PrefixStays(o, data, i);
            return;
          }
          free := wbuf.Length;
        }
        var take := if |data| - i < free then |data| - i else free;
        Store(data[i..i + take]);
        PieceJoins(o, data, i, take);
        i := i + take;
      }
      assert data[..i] == data;
    }

    /** memcpy to the end of the write buffer. */
    method Store(piece: string)
      requires Valid() && |piece| <= wbuf.Length - written
      modifies this`written, wbuf
      ensures Valid() && written == old(written) + |piece|
      ensures Output() == old(Output()) + piece
    {
      ghost var kept := wbuf[..written];
      forall k | 0 <= k < |piece| {
        wbuf[written + k] := piece[k];
      }
      assert wbuf[..written + |piece|] == kept + piece;
      written := written + |piece|;
    }

    method WriteLine(data: string)
      requires Valid()
      modifies this`written, wbuf, transport`acks, transport`sent
      ensures Valid() && old(transport.sent) <= transport.sent
      ensures old(Healthy(transport.acks)) ==> Healthy(transport.acks) && Output() == old(Output()) + data + "\r\n"
    {
      WbAppend(data);
      WbAppend("\r\n");
    }

    method SendLine(data: string) returns (ok: bool)
      requires Valid()
      modifies this`written, wbuf, transport`acks, transport`sent
      ensures Valid() && old(transport.sent) <= transport.sent
      ensures ok ==> written == 0
      ensures old(Healthy(transport.acks)) ==>
              ok && Healthy(transport.acks) && transport.sent == old(Output()) + data + "\r\n"
    {
      WriteLine(data);
      ok := Flush();
    }
  }

  // ---- the bound on a record is exact ----

  const BUFIO_READ_CAPACITY: nat := 4096

  /** Whatever was read before, a record or a count of up to half the buffer, rounded up, is handed out. */
  lemma HalfBufferIsEnough(b: BufIO, term: string, e: nat)
    requires b.Valid() && e <= b.rbuf.Length - b.rbuf.Length / 2
    ensures RecordEnd(b.Pending(), term) == Some(e) ==>
              UntilOutcome(b.Pending(), term, b.Room(), b.End()) == Ok(b.Pending()[..e])
    ensures e <= |b.Pending()| ==> CountOutcome(b.Pending(), e, b.Room(), b.End()) == Ok(b.Pending()[..e])
    ensures b.rbuf.Length == BUFIO_READ_CAPACITY ==> b.rbuf.Length - b.rbuf.Length / 2 == 2048
  {
  }

  /**
   For every capacity the half-buffer bound is tight: after a full window was rejected and half of it
   taken by count, a record one byte longer than capacity - capacity/2 is rejected although the
   transport delivers all of it.
   */
  method LongestRecordIsTight(capacity: nat) returns (b: BufIO, r: Outcome<string>)
    requires capacity >= 1
    ensures b.Valid() && b.rbuf.Length == capacity && r == Err(MessageTooLarge)
    ensures RecordEnd(b.Pending(), "\n") == Some(capacity - capacity / 2 + 1)
  {
    var line := seq(capacity, _ => 'x') + "\n";
    b := HalfConsumed(line);
    var rest := b.Pending();
    FirstNewline(rest, capacity - capacity / 2);
    r := b.ReadUntil("\n");
  }

  /** A buffer driven through its interface into the state with the least room. */
  method HalfConsumed(line: string) returns (b: BufIO)
    requires |line| >= 2 && line[|line| - 1] == '\n'
    requires forall i :: 0 <= i < |line| - 1 ==> line[i] != '\n'
    ensures fresh(b) && fresh(b.rbuf) && fresh(b.transport) && b.Valid() && b.rbuf.Length == |line| - 1
    ensures b.Room() == b.rbuf.Length - b.rbuf.Length / 2 && b.Pending() == line[b.rbuf.Length / 2..]
  {
    b := Loaded(line);
    ghost var cap := b.rbuf.Length;
    FirstNewline(line, cap);
    TooLong(line, "\n", cap, b.End());
    var full := b.ReadUntil("\n");
    assert full == Err(MessageTooLarge) && b.consumed == 0;
    var half := b.ReadN((|line| - 1) / 2);
    assert half == Ok(line[..cap / 2]);
  }

  method Loaded(line: string) returns (b: BufIO)
    requires |line| >= 2
    ensures fresh(b) && fresh(b.rbuf) && fresh(b.transport) && b.Valid() && b.rbuf.Length == |line| - 1
    ensures b.consumed == b.filled == 0 && b.Pending() == line
  {
    var t := new Transport([Data(line)], []);
    assert SupplyOf([Data(line)][1..]) == "";
    b := new BufIO(t, |line| - 1, 1);
  }

  lemma TooLong(p: string, term: string, room: nat, end: IoError)
    requires RecordEnd(p, term).None? || RecordEnd(p, term).value > room
    requires |p| >= room
    ensures UntilOutcome(p, term, room, end) == Err(MessageTooLarge)
  {
  }

  lemma FirstNewline(p: string, n: nat)
    requires |p| == n + 1 && p[n] == '\n'
    requires forall i :: 0 <= i < n ==> p[i] != '\n'
    ensures RecordEnd(p, "\n") == Some(n + 1)
  {
    forall k: nat | 1 <= k <= |p| ensures EndsAt(p, "\n", k) <==> p[k - 1] == '\n' {
      assert p[k - 1..k] == [p[k - 1]];
    }
    RecordEndIs(p, "\n", n + 1);
  }
}
