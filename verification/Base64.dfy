/**
 Base64 as the token layer uses it: the URL-safe alphabet without padding (section 5 of RFC 4648)
 for the parts of a token, the standard alphabet with padding (section 4) for body digests. Both
 decoders are strict: padding must be canonical and unused bits zero (section 3.5).
 */
module Base64 {
  import opened Wrappers

  type Byte = b: int | 0 <= b < 256
  type Sextet = b: int | 0 <= b < 64

  datatype Alphabet = Standard | UrlSafe

  // ---------------------------------------------------------------- bits

  // Three bytes x, y, z are four sextets s, t, u, v.

  function S(x: Byte): Sextet { x / 4 }
  function T(x: Byte, y: Byte): Sextet { (x % 4) * 16 + y / 16 }
  function U(y: Byte, z: Byte): Sextet { (y % 16) * 4 + z / 64 }
  function V(z: Byte): Sextet { z % 64 }

  // The last sextet of a shorter group carries zero bits at its end.

  function LastT(x: Byte): Sextet { (x % 4) * 16 }
  function LastU(y: Byte): Sextet { (y % 16) * 4 }

  function X(s: Sextet, t: Sextet): Byte { s * 4 + t / 16 }
  function Y(t: Sextet, u: Sextet): Byte { (t % 16) * 16 + u / 4 }
  function Z(u: Sextet, v: Sextet): Byte { (u % 4) * 64 + v }

  lemma By4(q: nat, r: nat)
    requires r < 4
    ensures (q * 4 + r) / 4 == q && (q * 4 + r) % 4 == r
  {
  }

  lemma By16(q: nat, r: nat)
    requires r < 16
    ensures (q * 16 + r) / 16 == q && (q * 16 + r) % 16 == r
  {
  }

  lemma FirstByteBack(x: Byte, y: Byte)
    ensures X(S(x), T(x, y)) == x && LastT(x) % 16 == 0 && X(S(x), LastT(x)) == x
  {
    By16(x % 4, y / 16);
    By16(x % 4, 0);
  }

  lemma SecondByteBack(x: Byte, y: Byte, z: Byte)
    ensures Y(T(x, y), U(y, z)) == y && LastU(y) % 4 == 0 && Y(T(x, y), LastU(y)) == y
  {
    By16(x % 4, y / 16);
    By4(y % 16, z / 64);
    By4(y % 16, 0);
  }

  lemma ThirdByteBack(y: Byte, z: Byte)
    ensures Z(U(y, z), V(z)) == z
  {
    By4(y % 16, z / 64);
  }

  lemma BytesBack(x: Byte, y: Byte, z: Byte)
    ensures X(S(x), T(x, y)) == x && Y(T(x, y), U(y, z)) == y && Z(U(y, z), V(z)) == z
    ensures LastT(x) % 16 == 0 && X(S(x), LastT(x)) == x
    ensures LastU(y) % 4 == 0 && Y(T(x, y), LastU(y)) == y
  {
    FirstByteBack(x, y);
    SecondByteBack(x, y, z);
    ThirdByteBack(y, z);
  }

  lemma SextetsBack(s: Sextet, t: Sextet, u: Sextet, v: Sextet)
    ensures S(X(s, t)) == s && T(X(s, t), Y(t, u)) == t && U(Y(t, u), Z(u, v)) == u && V(Z(u, v)) == v
    ensures t % 16 == 0 ==> LastT(X(s, t)) == t
    ensures u % 4 == 0 ==> LastU(Y(t, u)) == u
  {
  }

  /** A group is one number, its most significant part first, in base 256 and in base 64. */
  lemma GroupIsNumber(x: Byte, y: Byte, z: Byte)
    ensures ((S(x) * 64 + T(x, y)) * 64 + U(y, z)) * 64 + V(z) == (x * 256 + y) * 256 + z
    ensures (S(x) * 64 + T(x, y)) * 64 + LastU(y) == (x * 256 + y) * 4
    ensures S(x) * 64 + LastT(x) == x * 16
  {
  }

  function Sextets(b: seq<Byte>): seq<Sextet> {
    if |b| == 0 then []
    else if |b| == 1 then [S(b[0]), LastT(b[0])]
    else if |b| == 2 then [S(b[0]), T(b[0], b[1]), LastU(b[1])]
    else [S(b[0]), T(b[0], b[1]), U(b[1], b[2]), V(b[2])] + Sextets(b[3..])
  }

  function Bytes(s: seq<Sextet>): Option<seq<Byte>> {
    if |s| == 0 then Some([])
    else if |s| == 1 then None
    else if |s| == 2 then (if s[1] % 16 == 0 then Some([X(s[0], s[1])]) else None)
    else if |s| == 3 then (if s[2] % 4 == 0 then Some([X(s[0], s[1]), Y(s[1], s[2])]) else None)
    else
      match Bytes(s[4..])
      case None => None
      case Some(rest) => Some([X(s[0], s[1]), Y(s[1], s[2]), Z(s[2], s[3])] + rest)
  }

  lemma BytesOfGroup(s: Sextet, t: Sextet, u: Sextet, v: Sextet, rest: seq<Sextet>)
    requires Bytes(rest).Some?
    ensures Bytes([s, t, u, v] + rest) == Some([X(s, t), Y(t, u), Z(u, v)] + Bytes(rest).value)
  {
    assert ([s, t, u, v] + rest)[4..] == rest;
  }

  lemma BytesOfShort(s: Sextet, t: Sextet, u: Sextet)
    ensures t % 16 == 0 ==> Bytes([s, t]) == Some([X(s, t)])
    ensures u % 4 == 0 ==> Bytes([s, t, u]) == Some([X(s, t), Y(t, u)])
  {
  }

  lemma BytesOfOne(x: Byte)
    ensures Bytes([S(x), LastT(x)]) == Some([x])
  {
    BytesBack(x, x, x);
    BytesOfShort(S(x), LastT(x), LastU(x));
  }

  lemma BytesOfTwo(x: Byte, y: Byte)
    ensures Bytes([S(x), T(x, y), LastU(y)]) == Some([x, y])
  {
    BytesBack(x, y, y);
    BytesOfShort(S(x), T(x, y), LastU(y));
  }

  lemma BytesOfThree(x: Byte, y: Byte, z: Byte, rest: seq<Sextet>)
    requires Bytes(rest).Some?
    ensures Bytes([S(x), T(x, y), U(y, z), V(z)] + rest) == Some([x, y, z] + Bytes(rest).value)
  {
    BytesBack(x, y, z);
    BytesOfGroup(S(x), T(x, y), U(y, z), V(z), rest);
  }

  lemma {:induction false} BytesOfSextets(b: seq<Byte>)
    ensures Bytes(Sextets(b)) == Some(b)
    decreases |b|
  {
    if |b| == 0 {
    } else if |b| == 1 {
      BytesOfOne(b[0]);
      assert b == [b[0]];
    } else if |b| == 2 {
      BytesOfTwo(b[0], b[1]);
      assert b == [b[0], b[1]];
    } else {
      BytesOfSextets(b[3..]);
      BytesOfThree(b[0], b[1], b[2], Sextets(b[3..]));
      assert b == [b[0], b[1], b[2]] + b[3..];
    }
  }

  lemma {:induction false} SextetsOfBytes(s: seq<Sextet>)
    requires Bytes(s).Some?
    ensures Sextets(Bytes(s).value) == s
    decreases |s|
  {
    if |s| >= 4 {
      var b := Bytes(s).value;
      assert b[3..] == Bytes(s[4..]).value;
      SextetsOfBytes(s[4..]);
      SextetsBack(s[0], s[1], s[2], s[3]);
      assert [s[0], s[1], s[2], s[3]] + s[4..] == s;
    } else if |s| == 3 {
      SextetsBack(s[0], s[1], s[2], s[2]);
    } else if |s| == 2 {
      SextetsBack(s[0], s[1], s[1], s[1]);
    }
  }

  // ---------------------------------------------------------------- characters

  function Char(a: Alphabet, i: Sextet): char {
    if i < 26 then ('A' as int + i) as char
    else if i < 52 then ('a' as int + i - 26) as char
    else if i < 62 then ('0' as int + i - 52) as char
    else if i == 62 then (if a.Standard? then '+' else '-')
    else (if a.Standard? then '/' else '_')
  }

  function Index(a: Alphabet, c: char): Option<Sextet> {
    if 'A' <= c <= 'Z' then Some(c as int - 'A' as int)
    else if 'a' <= c <= 'z' then Some(c as int - 'a' as int + 26)
    else if '0' <= c <= '9' then Some(c as int - '0' as int + 52)
    else if c == (if a.Standard? then '+' else '-') then Some(62)
    else if c == (if a.Standard? then '/' else '_') then Some(63)
    else None
  }

  /** The alphabets are those of tables 1 and 2 of RFC 4648: capitals, small letters, digits and two more. */
  lemma CharIsTabled(a: Alphabet, i: Sextet)
    ensures i < 26 ==> Char(a, i) == "ABCDEFGHIJKLMNOPQRSTUVWXYZ"[i]
    ensures 26 <= i < 52 ==> Char(a, i) == "abcdefghijklmnopqrstuvwxyz"[i - 26]
    ensures 52 <= i < 62 ==> Char(a, i) == "0123456789"[i - 52]
    ensures Char(Standard, 62) == '+' && Char(Standard, 63) == '/'
    ensures Char(UrlSafe, 62) == '-' && Char(UrlSafe, 63) == '_'
  {
  }

  lemma IndexOfChar(a: Alphabet, i: Sextet)
    ensures Index(a, Char(a, i)) == Some(i)
    ensures Char(a, i) != '=' && Char(a, i) != '.'
  {
  }

  lemma CharOfIndex(a: Alphabet, c: char)
    requires Index(a, c).Some?
    ensures Char(a, Index(a, c).value) == c && c != '='
  {
  }

  function Chars(a: Alphabet, s: seq<Sextet>): string {
    if s == [] then [] else [Char(a, s[0])] + Chars(a, s[1..])
  }

  function Indices(a: Alphabet, t: string): Option<seq<Sextet>> {
    if t == [] then Some([])
    else
      match (Index(a, t[0]), Indices(a, t[1..]))
      case (Some(i), Some(rest)) => Some([i] + rest)
      case _ => None
  }

  lemma {:induction false} IndicesOfChars(a: Alphabet, s: seq<Sextet>)
    ensures Indices(a, Chars(a, s)) == Some(s) && |Chars(a, s)| == |s|
    ensures forall c | c in Chars(a, s) :: c != '=' && c != '.'
  {
    if s != [] {
      IndexOfChar(a, s[0]);
      IndicesOfChars(a, s[1..]);
      assert Chars(a, s) == [Char(a, s[0])] + Chars(a, s[1..]);
      assert Chars(a, s)[1..] == Chars(a, s[1..]);
      assert [s[0]] + s[1..] == s;
    }
  }

  lemma {:induction false} CharsOfIndices(a: Alphabet, t: string)
    requires Indices(a, t).Some?
    ensures Chars(a, Indices(a, t).value) == t && |Indices(a, t).value| == |t|
    ensures '=' !in t
  {
    if t != [] {
      CharOfIndex(a, t[0]);
      CharsOfIndices(a, t[1..]);
      assert t == [t[0]] + t[1..];
    }
  }

  // ---------------------------------------------------------------- unpadded and padded text

  function EncodeRaw(a: Alphabet, b: seq<Byte>): string {
    Chars(a, Sextets(b))
  }

  function DecodeRaw(a: Alphabet, t: string): Option<seq<Byte>> {
    match Indices(a, t)
    case None => None
    case Some(s) => Bytes(s)
  }

  /** Exactly the encodings decode, each to the bytes it encodes. */
  lemma RawExact(a: Alphabet, t: string, b: seq<Byte>)
    ensures DecodeRaw(a, t) == Some(b) <==> t == EncodeRaw(a, b)
  {
    BytesOfSextets(b);
    IndicesOfChars(a, Sextets(b));
    if DecodeRaw(a, t) == Some(b) {
      CharsOfIndices(a, t);
      SextetsOfBytes(Indices(a, t).value);
    }
  }

  function EncodeUrl(b: seq<Byte>): string {
    EncodeRaw(UrlSafe, b)
  }

  function DecodeUrl(t: string): Option<seq<Byte>> {
    DecodeRaw(UrlSafe, t)
  }

  function Padding(n: nat): string {
    if n % 4 == 2 then "==" else if n % 4 == 3 then "=" else ""
  }

  function EncodePadded(b: seq<Byte>): string {
    var t := EncodeRaw(Standard, b);
    t + Padding(|t|)
  }

  lemma {:induction false} RawLength(b: seq<Byte>)
    ensures |Sextets(b)| == |b| / 3 * 4 + if |b| % 3 == 0 then 0 else |b| % 3 + 1
    decreases |b|
  {
    if |b| >= 3 {
      RawLength(b[3..]);
      assert |Sextets(b)| == 4 + |Sextets(b[3..])|;
    }
  }

  lemma By3(q: nat, r: nat)
    requires r < 3
    ensures (q * 3 + r) / 3 == q && (q * 3 + r) % 3 == r
  {
  }

  /** For `q` whole groups of three bytes and `r` more. */
  lemma PaddingFor(q: nat, r: nat)
    requires r < 3
    ensures var m := q * 4 + if r == 0 then 0 else r + 1;
            && Padding(m) == (if r == 1 then "==" else if r == 2 then "=" else "")
            && m + |Padding(m)| == (q * 3 + r + 2) / 3 * 4
  {
    By4(q, if r == 0 then 0 else r + 1);
    By3(if r == 0 then q else q + 1, if r == 0 then 2 else r - 1);
  }

  /** The text fills groups of four, the last of which ends in `=` for each byte that is missing. */
  lemma PaddedShape(b: seq<Byte>)
    ensures |EncodePadded(b)| == (|b| + 2) / 3 * 4
    ensures EncodePadded(b)
         == EncodeRaw(Standard, b) + if |b| % 3 == 1 then "==" else if |b| % 3 == 2 then "=" else ""
  {
    RawLength(b);
    IndicesOfChars(Standard, Sextets(b));
    PaddingFor(|b| / 3, |b| % 3);
  }

  /** The text without one or two trailing `=`. */
  function Unpadded(t: string): string {
    if |t| >= 2 && t[|t| - 1] == '=' && t[|t| - 2] == '=' then t[..|t| - 2]
    else if |t| >= 1 && t[|t| - 1] == '=' then t[..|t| - 1]
    else t
  }

  function DecodePadded(t: string): Option<seq<Byte>> {
    if |t| % 4 != 0 then None else DecodeRaw(Standard, Unpadded(t))
  }

  lemma FourMore(n: nat)
    ensures (n + 4) % 4 == n % 4
  {
  }

  lemma {:induction false} SextetCount(b: seq<Byte>)
    ensures |Sextets(b)| % 4 != 1
    decreases |b|
  {
    if |b| >= 3 {
      var rest := Sextets(b[3..]);
      SextetCount(b[3..]);
      assert |Sextets(b)| == |rest| + 4;
      FourMore(|rest|);
    }
  }

  lemma EncodeRawShape(a: Alphabet, b: seq<Byte>)
    ensures |EncodeRaw(a, b)| % 4 != 1
    ensures forall c | c in EncodeRaw(a, b) :: c != '=' && c != '.'
  {
    IndicesOfChars(a, Sextets(b));
    SextetCount(b);
  }

  lemma UnpadPadded(t: string)
    requires '=' !in t && |t| % 4 != 1
    ensures |t + Padding(|t|)| % 4 == 0 && Unpadded(t + Padding(|t|)) == t
  {
    var n, pad := |t|, Padding(|t|);
    var p := t + pad;
    assert |p| == n + |pad| && p[..n] == t;
    assert n > 0 ==> t[n - 1] in t && p[n - 1] == t[n - 1];
    assert |pad| > 0 ==> p[|p| - 1] == '=';
    assert |pad| == 2 ==> p[|p| - 2] == '=';
  }

  lemma PadUnpadded(t: string)
    requires |t| % 4 == 0
    ensures '=' !in Unpadded(t) ==> Unpadded(t) + Padding(|Unpadded(t)|) == t
  {
    if '=' !in Unpadded(t) && |t| >= 4 {
      assert |Unpadded(t)| == |t| - 2 ==> t == t[..|t| - 2] + "==";
      assert |Unpadded(t)| == |t| - 1 ==> t == t[..|t| - 1] + "=";
    }
  }

  /** The same for padded text. */
  lemma PaddedExact(t: string, b: seq<Byte>)
    ensures DecodePadded(t) == Some(b) <==> t == EncodePadded(b)
  {
    var raw := EncodeRaw(Standard, b);
    EncodeRawShape(Standard, b);
    UnpadPadded(raw);
    RawExact(Standard, raw, b);
    if DecodePadded(t) == Some(b) {
      RawExact(Standard, Unpadded(t), b);
      PadUnpadded(t);
    }
  }
}
