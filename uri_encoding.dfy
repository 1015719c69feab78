/** The query encoding of the resolver: ECMAScript `encodeURIComponent`
    (section 19.2.6.4 of ECMA-262; percent-encoding as in section 2.1 of
    RFC 3986, over the UTF-8 form of section 3 of RFC 3629), followed by
    `.replace(/%2F/g, "/")`. Characters are Unicode scalar values, so the
    surrogate pairs of a JavaScript string stand here for the one code point
    they encode, and the lone surrogates for which `encodeURIComponent`
    throws cannot occur. */
module UriEncoding {
  import opened Wrappers

  type Byte = b: int | 0 <= b < 256

  /** The characters `encodeURIComponent` leaves alone: ASCII letters and
      digits and the marks `- _ . ! ~ * ' ( )`. */
  predicate IsUnreserved(c: char)
  {
    ('A' <= c <= 'Z') || ('a' <= c <= 'z') || ('0' <= c <= '9')
    || c == '-' || c == '_' || c == '.' || c == '!' || c == '~'
    || c == '*' || c == '\'' || c == '(' || c == ')'
  }

  predicate IsUpperHex(c: char)
  {
    ('0' <= c <= '9') || ('A' <= c <= 'F')
  }

  /** The upper-case hexadecimal digit for `n`. */
  function HexDigit(n: nat): (c: char)
    requires n < 16
    ensures IsUpperHex(c)
  {
    if n < 10 then ('0' as int + n) as char else ('A' as int + n - 10) as char
  }

  /** The value of a hexadecimal digit, upper or lower case. */
  predicate IsHex(c: char)
  {
    ('0' <= c <= '9') || ('A' <= c <= 'F') || ('a' <= c <= 'f')
  }

  function HexValue(c: char): (n: nat)
    requires IsHex(c)
    ensures n < 16
  {
    if '0' <= c <= '9' then c as int - '0' as int
    else if 'A' <= c <= 'F' then c as int - 'A' as int + 10
    else c as int - 'a' as int + 10
  }

  lemma HexDigitInjective(m: nat, n: nat)
    requires m < 16 && n < 16 && HexDigit(m) == HexDigit(n)
    ensures m == n
  {
  }

  lemma HexValueOfDigit(n: nat)
    requires n < 16
    ensures IsHex(HexDigit(n)) && HexValue(HexDigit(n)) == n
  {
  }

  // --------------------------------------------------------------- UTF-8

  /** The UTF-8 form of one code point: one byte below 0x80, otherwise a
      lead byte followed by continuation bytes, all of them 0x80 or more. */
  function Utf8(c: char): (bs: seq<Byte>)
    ensures 1 <= |bs| <= 4
    ensures |bs| == 1 <==> c as int < 0x80
    ensures |bs| == 1 ==> bs[0] == c as int
    ensures |bs| > 1 ==> forall k :: 0 <= k < |bs| ==> bs[k] >= 0x80
  {
    var cp := c as int;
    if cp < 0x80 then [cp]
    else if cp < 0x800 then [0xC0 + cp / 64, 0x80 + cp % 64]
    else if cp < 0x10000 then [0xE0 + cp / 4096, 0x80 + cp / 64 % 64, 0x80 + cp % 64]
    else [0xF0 + cp / 0x40000, 0x80 + cp / 4096 % 64, 0x80 + cp / 64 % 64, 0x80 + cp % 64]
  }

  function Utf8All(s: string): seq<Byte>
  {
    if s == [] then [] else Utf8(s[0]) + Utf8All(s[1..])
  }

  // ------------------------------------------------------ percent-encoding

  /** `%XY` for one byte, with upper-case hexadecimal digits. */
  function Escape(b: Byte): string
  {
    ['%', HexDigit(b / 16), HexDigit(b % 16)]
  }

  function EscapeAll(bs: seq<Byte>): string
  {
    if bs == [] then [] else Escape(bs[0]) + EscapeAll(bs[1..])
  }

  /** What `encodeURIComponent` makes of one character. */
  function EncodeChar(c: char): string
  {
    if IsUnreserved(c) then [c] else EscapeAll(Utf8(c))
  }

  /** `encodeURIComponent(s)`. */
  function EncodeURIComponent(s: string): string
  {
    if s == [] then [] else EncodeChar(s[0]) + EncodeURIComponent(s[1..])
  }

  /** `s.replace(/%2F/g, "/")`: every `%2F`, scanned left to right without
      overlap, becomes `/`. The pattern is case-sensitive, so `%2f` stays. */
  function RestoreSlashes(s: string): string
  {
    if |s| >= 3 && s[0] == '%' && s[1] == '2' && s[2] == 'F' then "/" + RestoreSlashes(s[3..])
    else if s == [] then []
    else [s[0]] + RestoreSlashes(s[1..])
  }

  /** The query encoding of app.ts line 81. */
  function EncodeQuery(s: string): string
  {
    RestoreSlashes(EncodeURIComponent(s))
  }

  // ------------------------------------------ character-by-character view

  /** What the query encoding makes of one character: `/` and the
      unreserved characters stand for themselves, everything else becomes
      the `%XX` escapes of its UTF-8 bytes. */
  function QueryPiece(c: char): (p: string)
    ensures p == [c] <==> (c == '/' || IsUnreserved(c))
    ensures !(c == '/' || IsUnreserved(c)) ==> p == EscapeAll(Utf8(c)) && |p| == 3 * |Utf8(c)|
  {
    EscapeAllLength(Utf8(c));
    if c == '/' then "/" else EncodeChar(c)
  }

  lemma {:induction false} EscapeAllLength(bs: seq<Byte>)
    ensures |EscapeAll(bs)| == 3 * |bs|
    ensures bs != [] ==> EscapeAll(bs)[0] == '%'
  {
    if bs != [] {
      EscapeAllLength(bs[1..]);
    }
  }

  /** The reference definition of the query encoding, one piece per character. */
  function PiecewiseEncoding(s: string): string
  {
    if s == [] then [] else QueryPiece(s[0]) + PiecewiseEncoding(s[1..])
  }

  lemma RestoreAfterEscape(b: Byte, tail: string)
    requires b != 0x2F
    ensures RestoreSlashes(Escape(b) + tail) == Escape(b) + RestoreSlashes(tail)
  {
    var e := Escape(b);
    var s := e + tail;
    assert !(e[1] == '2' && e[2] == 'F') by {
      if e[1] == '2' && e[2] == 'F' {
        HexDigitInjective(b / 16, 2);
        HexDigitInjective(b % 16, 15);
      }
    }
    assert s[0] == '%' && s[1] == e[1] && s[2] == e[2];
    var s1 := [e[1]] + ([e[2]] + tail);
    var s2 := [e[2]] + tail;
    assert s[1..] == s1 && s1[1..] == s2 && s2[1..] == tail;
    assert RestoreSlashes(s2) == [e[2]] + RestoreSlashes(tail);
    assert RestoreSlashes(s1) == [e[1]] + RestoreSlashes(s2);
    assert RestoreSlashes(s) == ['%'] + RestoreSlashes(s1);
  }

  lemma {:induction false} RestoreAfterEscapes(bs: seq<Byte>, tail: string)
    requires forall k :: 0 <= k < |bs| ==> bs[k] != 0x2F
    ensures RestoreSlashes(EscapeAll(bs) + tail) == EscapeAll(bs) + RestoreSlashes(tail)
  {
    if bs != [] {
      RestoreAfterEscapes(bs[1..], tail);
      RestoreAfterEscape(bs[0], EscapeAll(bs[1..]) + tail);
      Associative(Escape(bs[0]), EscapeAll(bs[1..]), tail);
      Associative(Escape(bs[0]), EscapeAll(bs[1..]), RestoreSlashes(tail));
    } else {
      assert EscapeAll(bs) + tail == tail;
    }
  }

  /** Regrouping a concatenation; a hint that spares the solver from
      finding the regrouping itself in the proofs that call it. */
  lemma Associative(x: string, y: string, z: string)
    ensures x + (y + z) == x + y + z
  {
  }

  lemma RestoreAfterChar(c: char, tail: string)
    ensures RestoreSlashes(EncodeChar(c) + tail) == QueryPiece(c) + RestoreSlashes(tail)
  {
    if IsUnreserved(c) {
      assert ([c] + tail)[1..] == tail;
    } else if c == '/' {
      assert EncodeChar(c) == "%2F";
      assert (EncodeChar(c) + tail)[3..] == tail;
    } else {
      RestoreAfterEscapes(Utf8(c), tail);
    }
  }

  /** The global replace of `%2F` undoes exactly the escaping of `/` and
      touches no other escape: the query encoding is `encodeURIComponent`
      with `/` left alone. */
  lemma {:induction false} EncodeQueryPiecewise(s: string)
    ensures EncodeQuery(s) == PiecewiseEncoding(s)
  {
    if s != [] {
      RestoreAfterChar(s[0], EncodeURIComponent(s[1..]));
      EncodeQueryPiecewise(s[1..]);
    }
  }

  /** The encoding of a concatenation is the concatenation of the encodings. */
  lemma {:induction false} PiecewiseAppend(a: string, b: string)
    ensures PiecewiseEncoding(a + b) == PiecewiseEncoding(a) + PiecewiseEncoding(b)
  {
    if a == [] {
      assert a + b == b;
    } else {
      assert (a + b)[0] == a[0];
      assert (a + b)[1..] == a[1..] + b;
      PiecewiseAppend(a[1..], b);
    }
  }

  /** Text made only of unreserved characters and `/` passes unchanged. */
  lemma EncodeQueryPlain(s: string)
    requires forall i :: 0 <= i < |s| ==> s[i] == '/' || IsUnreserved(s[i])
    ensures EncodeQuery(s) == s
  {
    EncodeQueryPiecewise(s);
    PiecewisePlain(s);
  }

  lemma {:induction false} PiecewisePlain(s: string)
    requires forall i :: 0 <= i < |s| ==> s[i] == '/' || IsUnreserved(s[i])
    ensures PiecewiseEncoding(s) == s
  {
    if s != [] {
      assert forall i :: 0 <= i < |s[1..]| ==> s[1..][i] == s[i + 1];
      PiecewisePlain(s[1..]);
      assert s == [s[0]] + s[1..];
    }
  }

  /** A space between two runs of plain text becomes `%20`. */
  lemma EncodeQuerySpaceJoined(a: string, b: string)
    requires forall i :: 0 <= i < |a| ==> a[i] == '/' || IsUnreserved(a[i])
    requires forall i :: 0 <= i < |b| ==> b[i] == '/' || IsUnreserved(b[i])
    ensures EncodeQuery(a + " " + b) == a + "%20" + b
  {
    assert PiecewiseEncoding(" ") == "%20" by {
      assert Utf8(' ') == [32];
    }
    assert PiecewiseEncoding(" " + b) == "%20" + b by {
      PiecewiseAppend(" ", b);
      PiecewisePlain(b);
    }
    assert PiecewiseEncoding(a + (" " + b)) == a + ("%20" + b) by {
      PiecewiseAppend(a, " " + b);
      PiecewisePlain(a);
    }
    assert a + " " + b == a + (" " + b);
    assert a + "%20" + b == a + ("%20" + b);
    EncodeQueryPiecewise(a + " " + b);
  }

  // -------------------------------------------------- shape of the output

  /** Unreserved characters, `/`, and upper-case `%XX` escapes other than
      `%2F`. */
  predicate WellEscaped(s: string)
    decreases |s|
  {
    if s == [] then true
    else if s[0] == '%' then
      |s| >= 3 && IsUpperHex(s[1]) && IsUpperHex(s[2]) && !(s[1] == '2' && s[2] == 'F')
      && WellEscaped(s[3..])
    else (IsUnreserved(s[0]) || s[0] == '/') && WellEscaped(s[1..])
  }

  lemma {:induction false} WellEscapedAppend(a: string, b: string)
    requires WellEscaped(a) && WellEscaped(b)
    ensures WellEscaped(a + b)
    decreases |a|
  {
    if a == [] {
      assert a + b == b;
    } else {
      var c := a + b;
      assert c[0] == a[0];
      if a[0] == '%' {
        assert c[1] == a[1] && c[2] == a[2];
        assert c[3..] == a[3..] + b;
        WellEscapedAppend(a[3..], b);
      } else {
        assert c[1..] == a[1..] + b;
        WellEscapedAppend(a[1..], b);
      }
    }
  }

  lemma {:induction false} EscapesWellEscaped(bs: seq<Byte>)
    requires forall k :: 0 <= k < |bs| ==> bs[k] != 0x2F
    ensures WellEscaped(EscapeAll(bs))
  {
    if bs != [] {
      EscapesWellEscaped(bs[1..]);
      var e := Escape(bs[0]);
      assert e[3..] == [];
      WellEscapedAppend(e, EscapeAll(bs[1..]));
    }
  }

  lemma PieceWellEscaped(c: char)
    ensures WellEscaped(QueryPiece(c))
  {
    if !(c == '/' || IsUnreserved(c)) {
      EscapesWellEscaped(Utf8(c));
    }
  }

  lemma {:induction false} EncodeQueryWellEscaped(s: string)
    ensures WellEscaped(PiecewiseEncoding(s))
  {
    if s != [] {
      PieceWellEscaped(s[0]);
      EncodeQueryWellEscaped(s[1..]);
      WellEscapedAppend(QueryPiece(s[0]), PiecewiseEncoding(s[1..]));
    }
  }

  /** `s` holds the three characters `%2F` from index `i` on. */
  predicate SlashEscapeAt(s: string, i: nat)
  {
    i + 3 <= |s| && s[i] == '%' && s[i + 1] == '2' && s[i + 2] == 'F'
  }

  lemma {:induction false} WellEscapedHasNoSlashEscape(s: string)
    requires WellEscaped(s)
    ensures forall i: nat :: !SlashEscapeAt(s, i)
    ensures '$' !in s
    decreases |s|
  {
    if s != [] {
      var n := if s[0] == '%' then 3 else 1;
      WellEscapedHasNoSlashEscape(s[n..]);
      forall i: nat ensures !SlashEscapeAt(s, i) {
        if i >= n && SlashEscapeAt(s, i) {
          assert SlashEscapeAt(s[n..], i - n);
        }
      }
      assert s == s[..n] + s[n..];
    }
  }

  /** The encoded query never contains `%2F` and never contains `$`, so
      the substitution that follows inserts it literally; every character
      of it is unreserved, `/`, or part of an upper-case `%XX` escape. */
  lemma EncodeQueryShape(s: string)
    ensures WellEscaped(EncodeQuery(s))
    ensures forall i: nat :: !SlashEscapeAt(EncodeQuery(s), i)
    ensures '$' !in EncodeQuery(s)
  {
    EncodeQueryPiecewise(s);
    EncodeQueryWellEscaped(s);
    WellEscapedHasNoSlashEscape(EncodeQuery(s));
  }

  /** One slash in, one slash out; no other character of the input
      produces a slash. */
  lemma SlashesKept(s: string)
    ensures multiset(EncodeQuery(s))['/'] == multiset(s)['/']
  {
    EncodeQueryPiecewise(s);
    SlashesKeptPiecewise(s);
  }

  lemma {:induction false} SlashesKeptPiecewise(s: string)
    ensures multiset(PiecewiseEncoding(s))['/'] == multiset(s)['/']
  {
    if s != [] {
      var piece, rest := QueryPiece(s[0]), PiecewiseEncoding(s[1..]);
      assert PiecewiseEncoding(s) == piece + rest;
      assert s == [s[0]] + s[1..];
      SlashCountAppend(piece, rest);
      SlashCountAppend([s[0]], s[1..]);
      SlashesKeptPiecewise(s[1..]);
      PieceSlashes(s[0]);
    }
  }

  lemma SlashCountAppend(a: string, b: string)
    ensures multiset(a + b)['/'] == multiset(a)['/'] + multiset(b)['/']
  {
  }

  lemma PieceSlashes(c: char)
    ensures multiset(QueryPiece(c))['/'] == multiset([c])['/']
  {
    if !(c == '/' || IsUnreserved(c)) {
      NoSlashInEscapes(Utf8(c));
    }
  }

  lemma {:induction false} NoSlashInEscapes(bs: seq<Byte>)
    ensures '/' !in EscapeAll(bs)
  {
    if bs != [] {
      NoSlashInEscapes(bs[1..]);
    }
  }

  // ------------------------------------------------------------- decoding

  /** Percent-decoding to bytes: `%XY` gives the byte XY, an ASCII
      character gives its own code, anything else fails. */
  function PercentDecode(s: string): Option<seq<Byte>>
    decreases |s|
  {
    if s == [] then Some([])
    else if s[0] == '%' then
      if |s| >= 3 && IsHex(s[1]) && IsHex(s[2]) then
        match PercentDecode(s[3..])
        case None => None
        case Some(t) => Some([HexValue(s[1]) * 16 + HexValue(s[2])] + t)
      else None
    else if s[0] as int < 0x80 then
      match PercentDecode(s[1..])
      case None => None
      case Some(t) => Some([s[0] as int] + t)
    else None
  }

  predicate IsContinuation(b: Byte)
  {
    0x80 <= b < 0xC0
  }

  predicate IsScalarValue(n: int)
  {
    (0 <= n < 0xD800) || (0xE000 <= n < 0x110000)
  }

  /** The number of bytes a UTF-8 sequence with lead byte `b` occupies, or
      0 when `b` cannot start one. */
  function SequenceLength(b: Byte): nat
  {
    if b < 0x80 then 1
    else if 0xC2 <= b < 0xE0 then 2
    else if 0xE0 <= b < 0xF0 then 3
    else if 0xF0 <= b < 0xF5 then 4
    else 0
  }

  /** The code point of a well-formed sequence of `n` bytes at the head of
      `bs`, or `None` if it is malformed, overlong, a surrogate or beyond
      U+10FFFF. */
  function DecodeOne(bs: seq<Byte>): Option<char>
    requires 1 <= |bs| <= 4
  {
    var n := |bs|;
    if SequenceLength(bs[0]) != n then None
    else if exists k :: 1 <= k < n && !IsContinuation(bs[k]) then None
    else
      var cp :=
        if n == 1 then bs[0] as int
        else if n == 2 then (bs[0] as int - 0xC0) * 64 + (bs[1] as int - 0x80)
        else if n == 3 then (bs[0] as int - 0xE0) * 4096 + (bs[1] as int - 0x80) * 64 + (bs[2] as int - 0x80)
        else (bs[0] as int - 0xF0) * 0x40000 + (bs[1] as int - 0x80) * 4096
             + (bs[2] as int - 0x80) * 64 + (bs[3] as int - 0x80);
      var least := if n == 1 then 0 else if n == 2 then 0x80 else if n == 3 then 0x800 else 0x10000;
      if least <= cp && IsScalarValue(cp) then Some(cp as char) else None
  }

  /** UTF-8 decoding of a whole byte sequence. */
  function Utf8Decode(bs: seq<Byte>): Option<string>
    decreases |bs|
  {
    if bs == [] then Some([])
    else
      var n := SequenceLength(bs[0]);
      if n == 0 || |bs| < n then None
      else match DecodeOne(bs[..n])
        case None => None
        case Some(c) =>
          match Utf8Decode(bs[n..])
          case None => None
          case Some(t) => Some([c] + t)
  }

  /** `decodeURIComponent`, restricted to text whose literal characters are
      ASCII (which is all the encoder produces). */
  function DecodeQuery(s: string): Option<string>
  {
    match PercentDecode(s)
    case None => None
    case Some(bs) => Utf8Decode(bs)
  }

  lemma Utf8Decodes(c: char)
    ensures SequenceLength(Utf8(c)[0]) == |Utf8(c)|
    ensures DecodeOne(Utf8(c)) == Some(c)
  {
    var cp := c as int;
    if cp < 0x80 {
      assert (cp as char) == c;
    } else if cp < 0x800 {
      Utf8Decodes2(c);
    } else if cp < 0x10000 {
      Utf8Decodes3(c);
    } else {
      Utf8Decodes4(c);
    }
  }

  lemma Utf8Decodes2(c: char)
    requires 0x80 <= c as int < 0x800
    ensures SequenceLength(Utf8(c)[0]) == 2 && DecodeOne(Utf8(c)) == Some(c)
  {
    var cp := c as int;
    assert cp == (cp / 64) * 64 + cp % 64;
    assert (cp as char) == c;
  }

  lemma Utf8Decodes3(c: char)
    requires 0x800 <= c as int < 0x10000
    ensures SequenceLength(Utf8(c)[0]) == 3 && DecodeOne(Utf8(c)) == Some(c)
  {
    var cp := c as int;
    var hi, mid, lo := cp / 4096, cp / 64 % 64, cp % 64;
    assert cp / 64 == hi * 64 + mid;
    assert cp == (cp / 64) * 64 + lo;
    assert cp == hi * 4096 + mid * 64 + lo;
    assert hi < 16;
    assert (cp as char) == c;
  }

  lemma Utf8Decodes4(c: char)
    requires 0x10000 <= c as int
    ensures SequenceLength(Utf8(c)[0]) == 4 && DecodeOne(Utf8(c)) == Some(c)
  {
    var cp := c as int;
    var top, hi, mid, lo := cp / 0x40000, cp / 4096 % 64, cp / 64 % 64, cp % 64;
    assert cp / 4096 == top * 64 + hi;
    assert cp / 64 == (cp / 4096) * 64 + mid;
    assert cp == (cp / 64) * 64 + lo;
    assert cp == top * 0x40000 + hi * 4096 + mid * 64 + lo;
    assert top <= 4;
    assert (cp as char) == c;
  }

  lemma {:induction false} Utf8RoundTrip(s: string)
    ensures Utf8Decode(Utf8All(s)) == Some(s)
  {
    if s != [] {
      var bs := Utf8(s[0]);
      var all := Utf8All(s);
      Utf8Decodes(s[0]);
      assert all[..|bs|] == bs;
      assert all[|bs|..] == Utf8All(s[1..]);
      Utf8RoundTrip(s[1..]);
      assert s == [s[0]] + s[1..];
    }
  }

  lemma {:induction false} PercentDecodeEscapes(bs: seq<Byte>, tail: string)
    requires PercentDecode(tail).Some?
    ensures PercentDecode(EscapeAll(bs) + tail) == Some(bs + PercentDecode(tail).value)
  {
    if bs != [] {
      PercentDecodeEscapes(bs[1..], tail);
      var s := EscapeAll(bs) + tail;
      var b := bs[0];
      HexValueOfDigit(b / 16);
      HexValueOfDigit(b % 16);
      assert s == Escape(b) + (EscapeAll(bs[1..]) + tail);
      assert s[0] == '%' && s[1] == HexDigit(b / 16) && s[2] == HexDigit(b % 16);
      assert s[3..] == EscapeAll(bs[1..]) + tail;
      assert HexValue(s[1]) * 16 + HexValue(s[2]) == b;
      assert PercentDecode(s) == Some([b] + (bs[1..] + PercentDecode(tail).value));
      assert bs == [b] + bs[1..];
      assert [b] + (bs[1..] + PercentDecode(tail).value) == bs + PercentDecode(tail).value;
    } else {
      assert EscapeAll(bs) + tail == tail;
      assert bs + PercentDecode(tail).value == PercentDecode(tail).value;
    }
  }

  lemma PercentDecodePiece(c: char, tail: string)
    requires PercentDecode(tail).Some?
    ensures PercentDecode(QueryPiece(c) + tail) == Some(Utf8(c) + PercentDecode(tail).value)
  {
    if c == '/' || IsUnreserved(c) {
      assert (QueryPiece(c) + tail)[1..] == tail;
    } else {
      PercentDecodeEscapes(Utf8(c), tail);
    }
  }

  lemma {:induction false} PercentDecodePiecewise(s: string)
    ensures PercentDecode(PiecewiseEncoding(s)) == Some(Utf8All(s))
  {
    if s != [] {
      PercentDecodePiecewise(s[1..]);
      PercentDecodePiece(s[0], PiecewiseEncoding(s[1..]));
    }
  }

  /** Decoding the encoded query gives the query back: the encoding loses
      nothing, and restoring `/` does not make two queries collide. */
  lemma EncodeQueryRoundTrip(s: string)
    ensures DecodeQuery(EncodeQuery(s)) == Some(s)
  {
    EncodeQueryPiecewise(s);
    PercentDecodePiecewise(s);
    Utf8RoundTrip(s);
  }
}
