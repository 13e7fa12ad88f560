/** smtp.c: the message between DATA and the lone dot, taken from one peer and framed again for the next. */
module Relay {
  import opened Views
  import opened BufferedIO

  const DOT_LINE := "\r\n.\r\n"

  /** What the server makes of the bytes after DATA: the body and what follows the dot line. */
  function CutBody(stream: string): Option<(string, string)> {
    match RecordEnd(stream, DOT_LINE)
    case None => None
    case Some(e) => Some((stream[..e - |DOT_LINE|], stream[e..]))
  }

  predicate EndsInCrLf(s: string) {
    |s| >= 2 && s[|s| - 2] == '\r' && s[|s| - 1] == '\n'
  }

  /** The bytes smtp_deliver sends for a body. */
  function Framed(body: string): string {
    (if EndsInCrLf(body) then body else body + "\r\n") + ".\r\n"
  }

  /** The body the next hop cuts out. */
  function Arrived(body: string): string {
    if EndsInCrLf(body) then body[..|body| - 2] else body
  }

  /** No dot line ends within body or across its end before the one that closes it. */
  predicate Bodylike(body: string) {
    RecordEnd(body + DOT_LINE, DOT_LINE) == Some(|body| + 5)
  }

  lemma DotLineAt(s: string, i: nat)
    ensures OccursAt(s, DOT_LINE, i) <==>
            i + 5 <= |s| && s[i] == '\r' && s[i + 1] == '\n' && s[i + 2] == '.' && s[i + 3] == '\r' && s[i + 4] == '\n'
  {
    if i + 5 <= |s| {
      assert s[i..i + 5] == [s[i], s[i + 1], s[i + 2], s[i + 3], s[i + 4]];
    }
  }

  /** The cut of any stream is determined by a body-like prefix before a dot line. */
  lemma CutAt(body: string, rest: string)
    requires Bodylike(body)
    ensures CutBody(body + DOT_LINE + rest) == Some((body, rest))
  {
    var s := body + DOT_LINE;
    FindPrefix(s, rest, DOT_LINE);
    assert (s + rest)[..|body|] == body;
    assert (s + rest)[|body| + 5..] == rest;
  }

  lemma CutIsBodylike(stream: string)
    requires CutBody(stream).Some?
    ensures var (body, rest) := CutBody(stream).value;
            Bodylike(body) && stream == body + DOT_LINE + rest
  {
    var (body, rest) := CutBody(stream).value;
    FindSpec(stream, DOT_LINE);
    var i := |body|;
    assert stream[i..i + 5] == DOT_LINE;
    assert stream == body + DOT_LINE + rest;
    var s := body + DOT_LINE;
    assert OccursAt(s, DOT_LINE, i);
    forall j: nat | j < i ensures !OccursAt(s, DOT_LINE, j) {
      assert !OccursAt(stream, DOT_LINE, j);
      DotLineAt(stream, j);
      DotLineAt(s, j);
    }
    FindIs(s, DOT_LINE, i);
  }

  /** Dropping a final CRLF leaves no dot line behind that was not there before. */
  lemma ArrivedIsBodylike(body: string)
    requires Bodylike(body)
    ensures Bodylike(Arrived(body)) && Framed(body) == Arrived(body) + DOT_LINE
  {
    if EndsInCrLf(body) {
      var b := Arrived(body);
      assert body == b + "\r\n";
      assert Framed(body) == b + DOT_LINE;
      ShorterIsBodylike(b);
    } else {
      assert Framed(body) == body + DOT_LINE;
    }
  }

  lemma ShorterIsBodylike(b: string)
    requires Bodylike(b + "\r\n")
    ensures Bodylike(b)
  {
    var s, t := b + "\r\n" + DOT_LINE, b + DOT_LINE;
    FindSpec(s, DOT_LINE);
    assert OccursAt(t, DOT_LINE, |b|);
    assert forall i :: 0 <= i < |b| + 2 ==> s[i] == t[i];
    assert t[|b| + 2] == '.';
    forall j: nat | j < |b| ensures !OccursAt(t, DOT_LINE, j) {
      assert !OccursAt(s, DOT_LINE, j);
      DotLineAt(s, j);
      DotLineAt(t, j);
    }
    FindIs(t, DOT_LINE, |b|);
  }

  /**
   Relay fidelity: whatever body was cut out of DATA and whatever is sent after it, the next hop cuts
   exactly that body, or that body without one final CRLF, and is left with exactly what was sent after.
   */
  lemma RelayFidelity(stream: string, next: string)
    requires CutBody(stream).Some?
    ensures var body := CutBody(stream).value.0;
            CutBody(Framed(body) + next) == Some((Arrived(body), next))
  {
    var body := CutBody(stream).value.0;
    CutIsBodylike(stream);
    ArrivedIsBodylike(body);
    CutAt(Arrived(body), next);
  }

  // ---- any number of hops ----

  /** How many CRLF pairs a body ends in. */
  function TrailingCrLfs(body: string): nat {
    if EndsInCrLf(body) then 1 + TrailingCrLfs(body[..|body| - 2]) else 0
  }

  /** The body after it crossed k servers of this kind: each frames it and the next one cuts it. */
  function AfterHops(body: string, k: nat): Option<string>
    decreases k
  {
    if k == 0 then Some(body)
    else match CutBody(Framed(body))
      case None => None
      case Some((b, _)) => AfterHops(b, k - 1)
  }

  /** Each hop costs one final CRLF while there is one and nothing else, over any number of hops. */
  lemma {:induction false} HopsLoseOnlyCrLfs(body: string, k: nat)
    requires Bodylike(body)
    ensures var n := if k < TrailingCrLfs(body) then k else TrailingCrLfs(body);
            2 * n <= |body| && AfterHops(body, k) == Some(body[..|body| - 2 * n])
    decreases k
  {
    hide Framed, CutBody, Bodylike;
    TrailingFits(body);
    if k == 0 {
      assert body[..|body|] == body;
    } else {
      OneHop(body, k);
      hide AfterHops;
      HopsLoseOnlyCrLfs(Arrived(body), k - 1);
      if EndsInCrLf(body) {
        ShorterByOnePair(body, k);
      }
    }
  }

  /** Taking n pairs off the end is taking one off and then n - 1. */
  lemma ShorterByOnePair(body: string, k: nat)
    requires k > 0 && EndsInCrLf(body)
    ensures var n := if k < TrailingCrLfs(body) then k else TrailingCrLfs(body);
            var b := Arrived(body);
            && TrailingCrLfs(body) == 1 + TrailingCrLfs(b)
            && 2 * n <= |body|
            && b[..|b| - 2 * (n - 1)] == body[..|body| - 2 * n]
  {
    TrailingFits(body);
  }

  lemma OneHop(body: string, k: nat)
    requires Bodylike(body) && k > 0
    ensures Bodylike(Arrived(body)) && AfterHops(body, k) == AfterHops(Arrived(body), k - 1)
  {
    HopCut(body);
    hide Framed, CutBody, Arrived, Bodylike;
  }

  lemma HopCut(body: string)
    requires Bodylike(body)
    ensures Bodylike(Arrived(body)) && CutBody(Framed(body)) == Some((Arrived(body), ""))
  {
    ArrivedIsBodylike(body);
    CutAt(Arrived(body), "");
    hide Framed, CutBody, Arrived, Bodylike;
    assert Arrived(body) + DOT_LINE + "" == Framed(body);
  }

  lemma TrailingFits(body: string)
    ensures 2 * TrailingCrLfs(body) <= |body|
  {
  }

  // ---- through the buffers ----

  /** smtp_deliver from bufio_write on: the body and its frame go out and are flushed. */
  method SendBody(bio: BufIO, body: string) returns (ok: bool)
    requires bio.Valid()
    modifies bio`written, bio.wbuf, bio.transport`acks, bio.transport`sent
    ensures bio.Valid() && (ok ==> bio.written == 0)
    ensures old(Healthy(bio.transport.acks)) ==> ok && bio.transport.sent == old(bio.Output()) + Framed(body)
  {
    bio.WbAppend(body);
    if |body| < 2 || body[|body| - 2] != '\r' || body[|body| - 1] != '\n' {
      bio.WbAppend("\r\n");
    }
    ok := bio.SendLine(".");
    FrameParts(old(bio.Output()), body);
  }

  lemma FrameParts(o: string, body: string)
    ensures EndsInCrLf(body) ==> o + body + "." + "\r\n" == o + Framed(body)
    ensures !EndsInCrLf(body) ==> o + body + "\r\n" + "." + "\r\n" == o + Framed(body)
  {
    assert "." + "\r\n" == ".\r\n";
  }

  /**
   DATA read from one connection and delivered over another, for every way either transport cuts its
   stream: the bytes sent are ones from which the next hop cuts the received body.
   */
  method RelayData(src: BufIO, dst: BufIO) returns (body: string, ok: bool)
    requires src.Valid() && dst.Valid() && src.rbuf.Length >= 10
    requires src.transport != dst.transport && src != dst
    requires src.rbuf != dst.wbuf && src.rbuf != dst.rbuf
    requires dst.written == 0 && dst.transport.sent == "" && Healthy(dst.transport.acks)
    modifies src`consumed, src`filled, src.rbuf, src.transport`input
    modifies dst`written, dst.wbuf, dst.transport`acks, dst.transport`sent
    ensures ok <==> CutBody(old(src.Pending())).Some?
    ensures ok ==> src.Valid() && CutBody(old(src.Pending())) == Some((body, src.Pending()))
    ensures ok ==> CutBody(dst.transport.sent) == Some((Arrived(body), ""))
    ensures !ok ==> dst.transport.sent == ""
  {
    ghost var p := src.Pending();
    var sb := new StringBuilder();
    var err := src.ReadUntilInto(DOT_LINE, sb);
    if err.Some? {
      return "", false;
    }
    assert sb.contents[|""|..] == sb.contents;
    body := sb.contents[..|sb.contents| - |DOT_LINE|];
    CutIs(p, sb.contents);
    hide CutBody, Framed, Arrived;
    ok := SendBody(dst, body);
    RelayFidelity(p, "");
    assert "" + Framed(body) == Framed(body) + "";
  }

  /** What ReadUntilInto delivered is a body and its dot line. */
  lemma CutIs(p: string, taken: string)
    requires RecordEnd(p, DOT_LINE).Some? && taken == p[..RecordEnd(p, DOT_LINE).value]
    ensures |taken| >= 5 && CutBody(p) == Some((taken[..|taken| - 5], p[|taken|..]))
  {
    var e := RecordEnd(p, DOT_LINE).value;
    assert taken[..|taken| - 5] == p[..e - 5];
  }
}
