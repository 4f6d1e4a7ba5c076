/** UTF-8 as Python applies it to a `str`: `s.encode('utf-8', 'ignore')`
    followed by a strict `.decode('utf-8')`.

    A Python `str` is a sequence of code points 0..0x10FFFF. The encoder maps
    every code point except the surrogates U+D800..U+DFFF to its 1..4 byte
    UTF-8 form (section 3.9 of the Unicode Standard, Table 3-6); a surrogate
    cannot be encoded and the 'ignore' error handler drops it. The strict
    decoder accepts exactly the well-formed byte sequences of Table 3-7. */
module Utf8 {

  type Byte = b: int | 0 <= b < 256

  /** One element of a Python `str`. */
  type CodePoint = c: int | 0 <= c <= 0x10FFFF

  datatype Option<T> = None | Some(value: T)

  predicate IsSurrogate(c: int) {
    0xD800 <= c <= 0xDFFF
  }

  predicate SurrogateFree(s: seq<CodePoint>) {
    forall i :: 0 <= i < |s| ==> !IsSurrogate(s[i])
  }

  /** Reference definition: the string with every surrogate removed and
      every other code point kept, in order. */
  function DropSurrogates(s: seq<CodePoint>): (r: seq<CodePoint>)
    ensures SurrogateFree(r)
    ensures |r| <= |s|
  {
    if s == [] then []
    else (if IsSurrogate(s[0]) then [] else [s[0]]) + DropSurrogates(s[1..])
  }

  // ---------------------------------------------------------------------
  // Encoding

  predicate IsContinuation(b: Byte) {
    0x80 <= b < 0xC0
  }

  /** The UTF-8 form of one scalar value. */
  function EncodeScalar(c: CodePoint): (bs: seq<Byte>)
    requires !IsSurrogate(c)
  {
    if c < 0x80 then [c]
    else if c < 0x800 then [0xC0 + c / 64, 0x80 + c % 64]
    else if c < 0x10000 then [0xE0 + c / 4096, 0x80 + (c / 64) % 64, 0x80 + c % 64]
    else [0xF0 + c / 262144, 0x80 + (c / 4096) % 64, 0x80 + (c / 64) % 64, 0x80 + c % 64]
  }

  /** `s.encode('utf-8', 'ignore')`: surrogates are skipped. */
  function EncodeIgnore(s: seq<CodePoint>): (bs: seq<Byte>)
    ensures |bs| <= 4 * |s|
  {
    if s == [] then []
    else (if IsSurrogate(s[0]) then [] else EncodeScalar(s[0])) + EncodeIgnore(s[1..])
  }

  // ---------------------------------------------------------------------
  // Strict decoding

  /** Decodes the code point at the head of `bs` and says how many bytes it
      took; None when the head is not a well-formed UTF-8 sequence (a stray
      continuation byte, 0xC0, 0xC1 or 0xF5..0xFF, a truncated sequence, an
      overlong form, an encoded surrogate, or a value above 0x10FFFF). */
  function DecodeFirst(bs: seq<Byte>): (r: Option<(CodePoint, nat)>)
    requires bs != []
    ensures r.Some? ==> 1 <= r.value.1 <= 4 && r.value.1 <= |bs| && !IsSurrogate(r.value.0)
  {
    var b0 := bs[0] as int;
    if b0 < 0x80 then Some((b0, 1))
    else if 0xC2 <= b0 < 0xE0 then
      if 2 <= |bs| && IsContinuation(bs[1]) then
        Some(((b0 - 0xC0) * 64 + (bs[1] as int - 0x80), 2))
      else None
    else if 0xE0 <= b0 < 0xF0 then
      if 3 <= |bs| && IsContinuation(bs[1]) && IsContinuation(bs[2]) then
        var c := (b0 - 0xE0) * 4096 + (bs[1] as int - 0x80) * 64 + (bs[2] as int - 0x80);
        if c < 0x800 || IsSurrogate(c) then None else Some((c, 3))
      else None
    else if 0xF0 <= b0 < 0xF5 then
      if 4 <= |bs| && IsContinuation(bs[1]) && IsContinuation(bs[2]) && IsContinuation(bs[3]) then
        var c := (b0 - 0xF0) * 262144 + (bs[1] as int - 0x80) * 4096 + (bs[2] as int - 0x80) * 64 + (bs[3] as int - 0x80);
        if c < 0x10000 || 0x10FFFF < c then None else Some((c, 4))
      else None
    else None
  }

  /** `bs.decode('utf-8')`: None stands for the UnicodeDecodeError. */
  function Decode(bs: seq<Byte>): (r: Option<seq<CodePoint>>)
    ensures r.Some? ==> |r.value| <= |bs|
    decreases |bs|
  {
    if bs == [] then Some([])
    else match DecodeFirst(bs)
      case None => None
      case Some((c, n)) =>
        match Decode(bs[n..])
        case None => None
        case Some(rest) => Some([c] + rest)
  }

  /** What line 84 of the sanitiser computes for one string. The decode
      cannot fail on what the encoder produced, and the result is the input
      with its surrogates removed. */
  function SanitizeString(s: seq<CodePoint>): (r: seq<CodePoint>)
    ensures Decode(EncodeIgnore(s)) == Some(r)
    ensures SurrogateFree(r)
  {
    IgnoreRoundTrip(s);
    DropSurrogates(s)
  }

  // ---------------------------------------------------------------------
  // Lemmas about DropSurrogates

  /** DropSurrogates works code point by code point: it is a homomorphism
      on concatenation. */
  lemma {:induction false} DropSurrogatesAppend(a: seq<CodePoint>, b: seq<CodePoint>)
    ensures DropSurrogates(a + b) == DropSurrogates(a) + DropSurrogates(b)
  {
    if a != [] {
      var keep := if IsSurrogate(a[0]) then [] else [a[0]];
      assert (a + b)[0] == a[0] && (a + b)[1..] == a[1..] + b;
      DropSurrogatesAppend(a[1..], b);
      assert DropSurrogates(a + b) == keep + (DropSurrogates(a[1..]) + DropSurrogates(b));
    } else {
      assert a + b == b;
    }
  }

  /** A code point survives exactly when it was in the input and is not a
      surrogate. */
  lemma {:induction false} DropSurrogatesMembers(s: seq<CodePoint>, c: CodePoint)
    ensures c in DropSurrogates(s) <==> c in s && !IsSurrogate(c)
  {
    if s != [] {
      DropSurrogatesMembers(s[1..], c);
      assert c in s <==> c == s[0] || c in s[1..];
      assert DropSurrogates(s) == (if IsSurrogate(s[0]) then [] else [s[0]]) + DropSurrogates(s[1..]);
    }
  }

  /** The string is left as it is exactly when it holds no surrogate. */
  lemma {:induction false} DropSurrogatesIdentity(s: seq<CodePoint>)
    ensures DropSurrogates(s) == s <==> SurrogateFree(s)
  {
    if s != [] {
      DropSurrogatesIdentity(s[1..]);
      if IsSurrogate(s[0]) {
        assert |DropSurrogates(s)| < |s| by { assert |DropSurrogates(s[1..])| <= |s[1..]|; }
      } else if SurrogateFree(s) {
        assert SurrogateFree(s[1..]) by {
          forall i | 0 <= i < |s[1..]| ensures !IsSurrogate(s[1..][i]) {
            assert s[1..][i] == s[i + 1];
          }
        }
      }
    }
  }

  lemma DropSurrogatesIdempotent(s: seq<CodePoint>)
    ensures DropSurrogates(DropSurrogates(s)) == DropSurrogates(s)
  {
    DropSurrogatesIdentity(DropSurrogates(s));
  }

  // ---------------------------------------------------------------------
  // Arithmetic on the byte fields

  lemma SplitBy64(c: int)
    requires 0 <= c
    ensures c == (c / 64) * 64 + c % 64 && 0 <= c % 64 < 64
  {
  }

  lemma SplitBy4096(c: int)
    requires 0 <= c
    ensures c / 64 == (c / 4096) * 64 + (c / 64) % 64
  {
    var q := c / 4096;
    var r := c % 4096;
    assert c == q * 4096 + r && 0 <= r < 4096;
    assert c == (q * 64 + r / 64) * 64 + r % 64;
    assert c / 64 == q * 64 + r / 64;
  }

  lemma SplitBy262144(c: int)
    requires 0 <= c
    ensures c / 4096 == (c / 262144) * 64 + (c / 4096) % 64
  {
    var q := c / 262144;
    var r := c % 262144;
    assert c == q * 262144 + r && 0 <= r < 262144;
    assert c == (q * 64 + r / 4096) * 4096 + r % 4096;
    assert c / 4096 == q * 64 + r / 4096;
  }

  /** Decoding the encoding of a scalar value yields that value, whatever
      bytes follow. */
  lemma DecodeFirstEncodeScalar(c: CodePoint, rest: seq<Byte>)
    requires !IsSurrogate(c)
    ensures var bs := EncodeScalar(c);
      DecodeFirst(bs + rest) == Some((c, |bs|))
  {
    var bs := EncodeScalar(c);
    var all := bs + rest;
    if c < 0x80 {
    } else if c < 0x800 {
      SplitBy64(c);
      assert all[0] == bs[0] && all[1] == bs[1];
    } else if c < 0x10000 {
      SplitBy64(c);
      SplitBy4096(c);
      assert all[0] == bs[0] && all[1] == bs[1] && all[2] == bs[2];
    } else {
      SplitBy64(c);
      SplitBy4096(c);
      SplitBy262144(c);
      assert all[0] == bs[0] && all[1] == bs[1] && all[2] == bs[2] && all[3] == bs[3];
    }
  }

  lemma TwoByteFields(c: int, q: int, r: int)
    requires c == q * 64 + r && 0 <= q && 0 <= r < 64
    ensures c / 64 == q && c % 64 == r
  {
  }

  lemma ThreeByteFields(c: int, q: int, m: int, r: int)
    requires c == (q * 64 + m) * 64 + r && 0 <= q && 0 <= m < 64 && 0 <= r < 64
    ensures c / 4096 == q && (c / 64) % 64 == m && c % 64 == r
  {
    TwoByteFields(c, q * 64 + m, r);
    TwoByteFields(q * 64 + m, q, m);
  }

  lemma FourByteFields(c: int, q: int, m1: int, m2: int, r: int)
    requires c == ((q * 64 + m1) * 64 + m2) * 64 + r
    requires 0 <= q && 0 <= m1 < 64 && 0 <= m2 < 64 && 0 <= r < 64
    ensures c / 262144 == q && (c / 4096) % 64 == m1 && (c / 64) % 64 == m2 && c % 64 == r
  {
    ThreeByteFields(c, q * 64 + m1, m2, r);
    TwoByteFields(q * 64 + m1, q, m1);
    assert c / 4096 == q * 64 + m1;
    assert c / 262144 == (c / 4096) / 64;
  }

  /** Conversely, whatever DecodeFirst accepts is the encoding of the code
      point it returns: no two byte sequences decode to the same value. */
  lemma DecodeFirstIsEncoding(bs: seq<Byte>)
    requires bs != [] && DecodeFirst(bs).Some?
    ensures var (c, n) := DecodeFirst(bs).value;
      EncodeScalar(c) == bs[..n]
  {
    var (c, n) := DecodeFirst(bs).value;
    if n == 2 {
      TwoByteFields(c, bs[0] as int - 0xC0, bs[1] as int - 0x80);
    } else if n == 3 {
      ThreeByteFields(c, bs[0] as int - 0xE0, bs[1] as int - 0x80, bs[2] as int - 0x80);
    } else if n == 4 {
      FourByteFields(c, bs[0] as int - 0xF0, bs[1] as int - 0x80, bs[2] as int - 0x80, bs[3] as int - 0x80);
    }
  }

  // ---------------------------------------------------------------------
  // Round trips

  /** Encoding with 'ignore' and then decoding never raises, and yields the
      input with its surrogates removed. */
  lemma {:induction false} IgnoreRoundTrip(s: seq<CodePoint>)
    ensures Decode(EncodeIgnore(s)) == Some(DropSurrogates(s))
  {
    if s != [] {
      IgnoreRoundTrip(s[1..]);
      var tail := EncodeIgnore(s[1..]);
      if IsSurrogate(s[0]) {
        assert EncodeIgnore(s) == tail;
        assert DropSurrogates(s) == DropSurrogates(s[1..]);
      } else {
        var head := EncodeScalar(s[0]);
        assert EncodeIgnore(s) == head + tail;
        DecodeFirstEncodeScalar(s[0], tail);
        assert (head + tail)[|head|..] == tail;
        assert DropSurrogates(s) == [s[0]] + DropSurrogates(s[1..]);
      }
    }
  }

  /** How Decode proceeds when it succeeds on a non-empty input. */
  lemma DecodeStep(bs: seq<Byte>)
    requires bs != [] && Decode(bs).Some?
    ensures DecodeFirst(bs).Some?
    ensures var (c, n) := DecodeFirst(bs).value;
      Decode(bs[n..]).Some? && Decode(bs).value == [c] + Decode(bs[n..]).value
  {
  }

  lemma EncodeIgnoreCons(c: CodePoint, rest: seq<CodePoint>)
    requires !IsSurrogate(c)
    ensures EncodeIgnore([c] + rest) == EncodeScalar(c) + EncodeIgnore(rest)
  {
    assert ([c] + rest)[0] == c && ([c] + rest)[1..] == rest;
  }

  lemma SplitAt(bs: seq<Byte>, n: nat)
    requires n <= |bs|
    ensures bs[..n] + bs[n..] == bs
  {
  }

  lemma SurrogateFreeCons(c: CodePoint, rest: seq<CodePoint>)
    requires !IsSurrogate(c) && SurrogateFree(rest)
    ensures SurrogateFree([c] + rest)
  {
    forall i | 0 <= i < |[c] + rest| ensures !IsSurrogate(([c] + rest)[i]) {
      if i > 0 { assert ([c] + rest)[i] == rest[i - 1]; }
    }
  }

  /** The decoder accepts only encodings: whatever it returns encodes back
      to the bytes it was given, and holds no surrogate. */
  lemma {:induction false} DecodeIsInverse(bs: seq<Byte>)
    requires Decode(bs).Some?
    ensures SurrogateFree(Decode(bs).value)
    ensures EncodeIgnore(Decode(bs).value) == bs
    decreases |bs|
  {
    if bs != [] {
      DecodeStep(bs);
      var (c, n) := DecodeFirst(bs).value;
      var rest := Decode(bs[n..]).value;
      DecodeIsInverse(bs[n..]);
      DecodeFirstIsEncoding(bs);
      EncodeIgnoreCons(c, rest);
      SurrogateFreeCons(c, rest);
      SplitAt(bs, n);
      calc {
        EncodeIgnore(Decode(bs).value);
        EncodeIgnore([c] + rest);
        EncodeScalar(c) + EncodeIgnore(rest);
        bs[..n] + bs[n..];
        bs;
      }
    }
  }
}
