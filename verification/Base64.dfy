/** basic.c: base64_decode, against the encoding of section 4 of RFC 4648; and AUTH PLAIN in smtp.c. */
module Base64 {
  import opened Views

  type Byte = b: nat | b < 256
  type Bytes = seq<Byte>

  /** uint32_t arithmetic is modulo this. */
  const TWO_32: nat := 0x1_0000_0000

  // ---- the alphabet ----

  /** b64_table: the value of a character, None where the table holds the default zero. */
  function Index(c: char): (r: Option<nat>)
    ensures r.Some? ==> r.value < 64
  {
    if 'A' <= c <= 'Z' then Some(c as int - 'A' as int)
    else if 'a' <= c <= 'z' then Some(c as int - 'a' as int + 26)
    else if '0' <= c <= '9' then Some(c as int - '0' as int + 52)
    else if c == '+' then Some(62)
    else if c == '/' then Some(63)
    else None
  }

  /** The table entry itself. */
  function Entry(c: char): nat {
    match Index(c)
    case Some(v) => v
    case None => 0
  }

  function Letter(v: nat): (c: char)
    requires v < 64
    ensures Index(c) == Some(v)
  {
    if v < 26 then ('A' as int + v) as char
    else if v < 52 then ('a' as int + v - 26) as char
    else if v < 62 then ('0' as int + v - 52) as char
    else if v == 62 then '+' else '/'
  }

  // ---- decoding ----

  /** 2 to the number of bits waiting in the accumulator, which is 0, 2, 4 or 6. */
  function Power(bits: nat): (p: nat)
    ensures p == 1 || p == 4 || p == 16 || p == 64
  {
    if bits == 6 then 64 else if bits == 4 then 16 else if bits == 2 then 4 else 1
  }

  predicate Waiting(bits: nat) {
    bits == 0 || bits == 2 || bits == 4 || bits == 6
  }

  /** (accum << 6) | v in 32 bits: the top six bits are lost, none is masked. */
  function Shift(accum: nat, v: nat): nat {
    (accum * 64 + v) % TWO_32
  }

  /** (accum >> bits) & 0xFF. */
  function Low8(accum: nat, bits: nat): Byte {
    (accum / Power(bits)) % 256
  }

  /** The loop from a state of the accumulator on. */
  function DecodeFrom(s: string, accum: nat, bits: nat): Bytes
    requires Waiting(bits)
  {
    if s == "" then []
    else match Index(s[0])
      case None => DecodeFrom(s[1..], accum, bits)
      case Some(v) =>
        var a := Shift(accum, v);
        if bits == 0 then DecodeFrom(s[1..], a, 6)
        else [Low8(a, bits - 2)] + DecodeFrom(s[1..], a, bits - 2)
  }

  function Decode(s: string): Bytes {
    DecodeFrom(s, 0, 0)
  }

  /** The characters that carry bits. */
  function Significant(s: string): string {
    if s == "" then ""
    else if Index(s[0]).Some? then [s[0]] + Significant(s[1..])
    else Significant(s[1..])
  }

  lemma {:induction false} DecodedLength(s: string, accum: nat, bits: nat)
    requires Waiting(bits)
    ensures |DecodeFrom(s, accum, bits)| == (6 * |Significant(s)| + bits) / 8
    ensures |Significant(s)| <= |s|
  {
    if s != "" {
      match Index(s[0])
      case None => DecodedLength(s[1..], accum, bits);
      case Some(v) =>
        var a := Shift(accum, v);
        DecodedLength(s[1..], a, if bits == 0 then 6 else bits - 2);
    }
  }

  /** The output fits the (len / 4) * 3 + 3 bytes set aside for it, whatever the input is. */
  lemma OutputFits(s: string)
    ensures |Decode(s)| <= (|s| / 4) * 3 + 3
  {
    DecodedLength(s, 0, 0);
  }

  method Base64Decode(src: string) returns (r: Bytes)
    ensures r == Decode(src)
  {
    OutputFits(src);
    var out := new Byte[(|src| / 4) * 3 + 3];
    var outLen, bits := 0, 0;
    var accum: nat := 0;
    var i := 0;
    assert src[0..] == src;
    while i < |src|
      invariant 0 <= i <= |src| && Waiting(bits) && 0 <= outLen <= |Decode(src)|
      invariant Decode(src) == out[..outLen] + DecodeFrom(src[i..], accum, bits)
    {
      hide Shift, Low8, Decode;
      var c := src[i];
      i := i + 1;
      assert src[i - 1..][1..] == src[i..];
      if c == '=' || c == '\r' || c == '\n' || c == ' ' || c == '\t' {
        continue;
      }
      var v := Entry(c);
      if v == 0 && c != 'A' {
        continue;
      }
      assert Index(c) == Some(v);
      accum := Shift(accum, v);
      bits := bits + 6;
      if bits >= 8 {
        bits := bits - 8;
        ghost var before := out[..outLen];
        out[outLen] := Low8(accum, bits);
        outLen := outLen + 1;
        assert out[..outLen] == before + [Low8(accum, bits)];
        Assoc(before, [Low8(accum, bits)], DecodeFrom(src[i..], accum, bits));
      }
    }
    r := out[..outLen];
  }

  // ---- encoding ----

  /** The four letters of a three-byte group. */
  function Letters(a: Byte, b: Byte, c: Byte): (r: string)
    ensures |r| == 4
  {
    [Letter(a / 4), Letter(a % 4 * 16 + b / 16), Letter(b % 16 * 4 + c / 64), Letter(c % 64)]
  }

  function Encode(b: Bytes): string {
    if |b| == 0 then ""
    else if |b| == 1 then Letters(b[0], 0, 0)[..2] + "=="
    else if |b| == 2 then Letters(b[0], b[1], 0)[..3] + "="
    else Letters(b[0], b[1], b[2]) + Encode(b[3..])
  }

  // ---- the round trip ----

  lemma LowByte(z: int, m: int, b: nat)
    requires z == m * 256 + b && b < 256
    ensures z % 256 == b
  {
  }

  /** Dropping high bits of the accumulator subtracts a multiple of 2^32. */
  lemma ShiftWraps(accum: nat, v: nat) returns (q: nat)
    ensures Shift(accum, v) == accum * 64 + v - q * 0x1_0000_0000
  {
    q := (accum * 64 + v) / TWO_32;
  }

  lemma AfterNone(h: nat, v: nat, q: nat, y: nat)
    requires v < 64 && y == h * 64 + v - q * 0x1_0000_0000
    ensures y % 64 == v
  {
    var m := h - q * 0x400_0000;
    assert y == m * 64 + v;
  }

  lemma AfterTwo(h: nat, r: nat, v: nat, q: nat, y: nat)
    requires r < 4 && v < 64 && y == (h * 4 + r) * 64 + v - q * 0x1_0000_0000
    ensures y % 256 == r * 64 + v
  {
    LowByte(y, h - q * 0x100_0000, r * 64 + v);
  }

  lemma AfterFour(h: nat, r: nat, v: nat, q: nat, y: nat)
    requires r < 16 && v < 64 && y == (h * 16 + r) * 64 + v - q * 0x1_0000_0000
    ensures (y / 4) % 256 == (r * 64 + v) / 4 && y % 4 == v % 4
  {
    var m := h - q * 0x40_0000;
    var w := r * 64 + v;
    assert y == m * 1024 + w;
    assert y / 4 == m * 256 + w / 4;
    LowByte(y / 4, m, w / 4);
  }

  lemma AfterSix(h: nat, r: nat, v: nat, q: nat, y: nat)
    requires r < 64 && v < 64 && y == (h * 64 + r) * 64 + v - q * 0x1_0000_0000
    ensures (y / 16) % 256 == (r * 64 + v) / 16 && y % 16 == v % 16
  {
    var m := h - q * 0x10_0000;
    var w := r * 64 + v;
    assert y == m * 4096 + w;
    assert y / 16 == m * 256 + w / 16;
    LowByte(y / 16, m, w / 16);
  }

  /** Only the waiting bits of the accumulator matter, so it is harmless that it is never masked. */
  lemma OnlyWaitingBits(accum: nat, v: nat, bits: nat)
    requires Waiting(bits) && v < 64
    ensures bits == 0 ==> Shift(accum, v) % 64 == v
    ensures bits > 0 ==> Low8(Shift(accum, v), bits - 2) == (accum % Power(bits) * 64 + v) / Power(bits - 2)
    ensures bits > 0 ==> Shift(accum, v) % Power(bits - 2) == v % Power(bits - 2)
  {
    var q := ShiftWraps(accum, v);
    hide Shift;
    var y := Shift(accum, v);
    if bits == 0 {
      AfterNone(accum, v, q, y);
    } else if bits == 2 {
      AfterTwo(accum / 4, accum % 4, v, q, y);
    } else if bits == 4 {
      AfterFour(accum / 16, accum % 16, v, q, y);
    } else {
      AfterSix(accum / 64, accum % 64, v, q, y);
    }
  }

  lemma GroupArithmetic(a: Byte, b: Byte, c: Byte)
    ensures (a / 4 * 64 + (a % 4 * 16 + b / 16)) / 16 == a
    ensures ((a % 4 * 16 + b / 16) % 16 * 64 + (b % 16 * 4 + c / 64)) / 4 == b
    ensures ((b % 16 * 4 + c / 64) % 4 * 64 + c % 64) == c
  {
    FirstByte(a / 4, a % 4, b / 16);
    SecondByte(a % 4, b / 16, b % 16, c / 64);
    ThirdByte(b % 16, c / 64, c % 64);
  }

  lemma FirstByte(q: nat, r: nat, t: nat)
    requires t < 16
    ensures (q * 64 + (r * 16 + t)) / 16 == 4 * q + r
  {
  }

  lemma SecondByte(r: nat, t: nat, u: nat, v: nat)
    requires t < 16 && v < 4
    ensures ((r * 16 + t) % 16 * 64 + (u * 4 + v)) / 4 == t * 16 + u
  {
    assert (r * 16 + t) % 16 == t;
  }

  lemma ThirdByte(u: nat, v: nat, w: nat)
    requires v < 4
    ensures (u * 4 + v) % 4 * 64 + w == v * 64 + w
  {
  }

  /** The bytes that come out while the letters of a group go in. */
  lemma GroupBytes(a: Byte, b: Byte, c: Byte, accum: nat)
    ensures var a0 := Shift(accum, a / 4); var a1 := Shift(a0, a % 4 * 16 + b / 16);
            var a2 := Shift(a1, b % 16 * 4 + c / 64); var a3 := Shift(a2, c % 64);
            Low8(a1, 4) == a && Low8(a2, 2) == b && Low8(a3, 0) == c
  {
    var v0, v1, v2, v3 := a / 4, a % 4 * 16 + b / 16, b % 16 * 4 + c / 64, c % 64;
    OnlyWaitingBits(accum, v0, 0);
    OnlyWaitingBits(Shift(accum, v0), v1, 6);
    OnlyWaitingBits(Shift(Shift(accum, v0), v1), v2, 4);
    OnlyWaitingBits(Shift(Shift(Shift(accum, v0), v1), v2), v3, 2);
    hide Shift, Low8;
    GroupArithmetic(a, b, c);
  }

  lemma OneLetter(v: nat, rest: string, accum: nat, bits: nat)
    requires Waiting(bits) && v < 64
    ensures var a := Shift(accum, v);
            DecodeFrom([Letter(v)] + rest, accum, bits) ==
            if bits == 0 then DecodeFrom(rest, a, 6) else [Low8(a, bits - 2)] + DecodeFrom(rest, a, bits - 2)
  {
    assert ([Letter(v)] + rest)[1..] == rest;
  }

  /** Four letters in a state with nothing waiting give three bytes and leave nothing waiting. */
  lemma GroupDecodes(a: Byte, b: Byte, c: Byte, rest: string, accum: nat) returns (accum': nat)
    ensures DecodeFrom(Letters(a, b, c) + rest, accum, 0) == [a, b, c] + DecodeFrom(rest, accum', 0)
  {
    GroupBytes(a, b, c, accum);
    accum' := FourLetters(a / 4, a % 4 * 16 + b / 16, b % 16 * 4 + c / 64, c % 64, a, b, c, rest, accum);
  }

  lemma FourLetters(v0: nat, v1: nat, v2: nat, v3: nat, a: Byte, b: Byte, c: Byte, rest: string, accum: nat)
    returns (accum': nat)
    requires v0 < 64 && v1 < 64 && v2 < 64 && v3 < 64
    requires var a1 := Shift(Shift(accum, v0), v1); var a2 := Shift(a1, v2);
             Low8(a1, 4) == a && Low8(a2, 2) == b && Low8(Shift(a2, v3), 0) == c
    ensures DecodeFrom([Letter(v0), Letter(v1), Letter(v2), Letter(v3)] + rest, accum, 0) ==
            [a, b, c] + DecodeFrom(rest, accum', 0)
  {
    hide Shift, Low8, DecodeFrom, Letter;
    var a0 := Shift(accum, v0);
    var a1 := Shift(a0, v1);
    var a2 := Shift(a1, v2);
    accum' := Shift(a2, v3);
    var s3 := [Letter(v3)] + rest;
    var s2 := [Letter(v2)] + s3;
    var s1 := [Letter(v1)] + s2;
    assert [Letter(v0), Letter(v1), Letter(v2), Letter(v3)] + rest == [Letter(v0)] + s1;
    OneLetter(v0, s1, accum, 0);
    OneLetter(v1, s2, a0, 6);
    OneLetter(v2, s3, a1, 4);
    OneLetter(v3, rest, a2, 2);
    assert [a] + ([b] + ([c] + DecodeFrom(rest, accum', 0))) == [a, b, c] + DecodeFrom(rest, accum', 0);
  }

  /** A group cut short by padding gives only its whole bytes. */
  lemma TailDecodes(a: Byte, b: Byte, accum: nat)
    ensures DecodeFrom(Letters(a, 0, 0)[..2] + "==", accum, 0) == [a]
    ensures DecodeFrom(Letters(a, b, 0)[..3] + "=", accum, 0) == [a, b]
  {
    hide Shift, Low8, DecodeFrom, Letter;
    GroupBytes(a, 0, 0, accum);
    var v0, v1 := a / 4, a % 4 * 16;
    assert Letters(a, 0, 0)[..2] + "==" == [Letter(v0)] + ([Letter(v1)] + "==");
    OneLetter(v0, [Letter(v1)] + "==", accum, 0);
    OneLetter(v1, "==", Shift(accum, v0), 6);
    Padding(Shift(Shift(accum, v0), v1), 4);
    GroupBytes(a, b, 0, accum);
    var w1, w2 := a % 4 * 16 + b / 16, b % 16 * 4;
    assert Letters(a, b, 0)[..3] + "=" == [Letter(v0)] + ([Letter(w1)] + ([Letter(w2)] + "="));
    OneLetter(v0, [Letter(w1)] + ([Letter(w2)] + "="), accum, 0);
    OneLetter(w1, [Letter(w2)] + "=", Shift(accum, v0), 6);
    OneLetter(w2, "=", Shift(Shift(accum, v0), w1), 4);
    Padding(Shift(Shift(Shift(accum, v0), w1), w2), 2);
    assert [a] + ([b] + []) == [a, b];
  }

  lemma Padding(accum: nat, bits: nat)
    requires Waiting(bits)
    ensures DecodeFrom("==", accum, bits) == [] && DecodeFrom("=", accum, bits) == []
  {
    assert "=="[1..] == "=" && "="[1..] == "";
    assert DecodeFrom("=", accum, bits) == DecodeFrom("", accum, bits);
    assert DecodeFrom("==", accum, bits) == DecodeFrom("=", accum, bits);
  }

  lemma {:induction false} EncodedDecodes(b: Bytes, accum: nat)
    ensures DecodeFrom(Encode(b), accum, 0) == b
  {
    hide DecodeFrom, Letters;
    if |b| == 0 {
      NothingDecodes(accum);
    } else if |b| <= 2 {
      TailDecodes(b[0], if |b| == 2 then b[1] else 0, accum);
    } else {
      var rest := Encode(b[3..]);
      var accum' := GroupDecodes(b[0], b[1], b[2], rest, accum);
      EncodedDecodes(b[3..], accum');
      assert [b[0], b[1], b[2]] + b[3..] == b;
    }
  }

  lemma NothingDecodes(accum: nat)
    ensures DecodeFrom("", accum, 0) == []
  {
  }

  /** Characters outside the alphabet are skipped wherever they stand. */
  lemma {:induction false} OnlySignificant(s: string, accum: nat, bits: nat)
    requires Waiting(bits)
    ensures DecodeFrom(s, accum, bits) == DecodeFrom(Significant(s), accum, bits)
  {
    hide Shift, Low8;
    if s != "" {
      match Index(s[0])
      case None => OnlySignificant(s[1..], accum, bits);
      case Some(v) =>
        var a := Shift(accum, v);
        OnlySignificant(s[1..], a, if bits == 0 then 6 else bits - 2);
        assert ([s[0]] + Significant(s[1..]))[1..] == Significant(s[1..]);
    }
  }

  predicate IsBlank(c: char) {
    c == ' ' || c == '\t' || c == '\r' || c == '\n'
  }

  function WithoutBlanks(s: string): string {
    if s == "" then ""
    else if IsBlank(s[0]) then WithoutBlanks(s[1..])
    else [s[0]] + WithoutBlanks(s[1..])
  }

  lemma {:induction false} BlanksAreInsignificant(s: string)
    ensures Significant(WithoutBlanks(s)) == Significant(s)
  {
    if s != "" {
      BlanksAreInsignificant(s[1..]);
      if !IsBlank(s[0]) {
        assert ([s[0]] + WithoutBlanks(s[1..]))[1..] == WithoutBlanks(s[1..]);
      }
    }
  }

  /** Decoding the RFC 4648 encoding of any bytes, with blanks inserted anywhere, gives them back. */
  lemma RoundTrip(b: Bytes, text: string)
    requires WithoutBlanks(text) == Encode(b)
    ensures Decode(text) == b
  {
    OnlySignificant(text, 0, 0);
    BlanksAreInsignificant(text);
    OnlySignificant(Encode(b), 0, 0);
    EncodedDecodes(b, 0);
  }

  // ---- AUTH PLAIN (section 2 of RFC 4616) ----

  /** The bytes before the first NUL, and those after it. */
  function CutNul(b: Bytes): (r: (Bytes, Bytes))
    ensures |r.1| <= |b|
  {
    if b == [] then ([], [])
    else if b[0] == 0 then ([], b[1..])
    else
      var (x, y) := CutNul(b[1..]);
      ([b[0]] + x, y)
  }

  /** authcid and passwd of a decoded AUTH PLAIN response. */
  function Credentials(b: Bytes): (Bytes, Bytes) {
    CutNul(CutNul(b).1)
  }

  lemma {:induction false} CutNulAt(x: Bytes, y: Bytes)
    requires 0 !in x
    ensures CutNul(x + [0] + y) == (x, y)
  {
    var b := x + [0] + y;
    if x != [] {
      assert b[1..] == x[1..] + [0] + y;
      CutNulAt(x[1..], y);
      assert [x[0]] + x[1..] == x;
    }
  }

  /** The two index loops of the AUTH command. */
  method SplitCredentials(decoded: Bytes) returns (authcid: Bytes, passwd: Bytes)
    ensures (authcid, passwd) == Credentials(decoded)
  {
    var i := NextNul(decoded, 0);
    assert decoded[0..] == decoded;
    if i < |decoded| {
      i := i + 1;
    }
    var authStart := i;
    assert CutNul(decoded).1 == decoded[authStart..];
    i := NextNul(decoded, authStart);
    authcid := decoded[authStart..i];
    if i < |decoded| {
      i := i + 1;
    }
    passwd := decoded[i..];
    assert i == |decoded| ==> passwd == [];
    assert (authcid, passwd) == CutNul(decoded[authStart..]);
  }

  method NextNul(b: Bytes, start: nat) returns (i: nat)
    requires start <= |b|
    ensures start <= i <= |b| && CutNul(b[start..]) == (b[start..i], if i < |b| then b[i + 1..] else [])
  {
    i := start;
    assert b[start..start] + CutNul(b[start..]).0 == CutNul(b[start..]).0;
    while i < |b| && b[i] != 0
      invariant start <= i <= |b|
      invariant CutNul(b[start..]).0 == b[start..i] + CutNul(b[i..]).0 && CutNul(b[start..]).1 == CutNul(b[i..]).1
    {
      assert b[i..][1..] == b[i + 1..];
      Assoc(b[start..i], [b[i]], CutNul(b[i + 1..]).0);
      assert b[start..i + 1] == b[start..i] + [b[i]];
      i := i + 1;
    }
    if i < |b| {
      assert b[i..][1..] == b[i + 1..];
    }
    assert b[start..i] + [] == b[start..i];
  }

  /** The server recovers exactly the credentials a client encoded, whatever the authorization id is. */
  lemma AuthPlainRoundTrip(authzid: Bytes, authcid: Bytes, passwd: Bytes, text: string)
    requires 0 !in authzid && 0 !in authcid
    requires WithoutBlanks(text) == Encode(authzid + [0] + (authcid + [0] + passwd))
    ensures Credentials(Decode(text)) == (authcid, passwd)
  {
    RoundTrip(authzid + [0] + (authcid + [0] + passwd), text);
    CutNulAt(authzid, authcid + [0] + passwd);
    CutNulAt(authcid, passwd);
  }
}
