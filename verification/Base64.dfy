/** Base64 of the proxy: encoding and decoding loops over byte buffers (section 4 of RFC 4648). */
module Base64 {
  import opened Sequences

  newtype byte = x: int | 0 <= x < 256

  const PAD: byte := 61
  const INVALID: byte := 77

  /** basis64: the alphabet. */
  function Char(v: byte): byte
    requires v < 64
  {
    if v < 26 then 65 + v else if v < 52 then 71 + v else if v < 62 then v - 4 else if v == 62 then 43 else 47
  }

  /** The decoding table: the value of a character, INVALID outside the alphabet. */
  function Value(c: byte): byte
  {
    if 65 <= c <= 90 then c - 65
    else if 97 <= c <= 122 then c - 71
    else if 48 <= c <= 57 then c + 4
    else if c == 43 then 62
    else if c == 47 then 63
    else INVALID
  }

  /** Table and alphabet are inverse; the pad is in neither. */
  lemma TablesInverse(v: byte, c: byte)
    ensures v < 64 ==> Value(Char(v)) == v && Char(v) != PAD
    ensures Value(c) < 64 || Value(c) == INVALID
    ensures Value(c) < 64 ==> Char(Value(c)) == c
    ensures Value(PAD) == INVALID
  {
  }

  const UPPER := "ABCDEFGHIJKLMNOPQRSTUVWXYZ"
  const LOWER := "abcdefghijklmnopqrstuvwxyz"
  const DIGITS := "0123456789"
  const ALPHABET := UPPER + LOWER + DIGITS + "+/"

  lemma UpperAt(i: int)
    requires 0 <= i < 26
    ensures |UPPER| == 26 && UPPER[i] as int == 65 + i
  {
    match i case 0 => case 1 => case 2 => case 3 => case 4 => case 5 => case 6 => case 7 => case 8 => case 9 =>
            case 10 => case 11 => case 12 => case 13 => case 14 => case 15 => case 16 => case 17 => case 18 =>
            case 19 => case 20 => case 21 => case 22 => case 23 => case 24 => case 25 =>
  }

  lemma LowerAt(i: int)
    requires 0 <= i < 26
    ensures |LOWER| == 26 && LOWER[i] as int == 97 + i
  {
    match i case 0 => case 1 => case 2 => case 3 => case 4 => case 5 => case 6 => case 7 => case 8 => case 9 =>
            case 10 => case 11 => case 12 => case 13 => case 14 => case 15 => case 16 => case 17 => case 18 =>
            case 19 => case 20 => case 21 => case 22 => case 23 => case 24 => case 25 =>
  }

  lemma DigitAt(i: int)
    requires 0 <= i < 10
    ensures |DIGITS| == 10 && DIGITS[i] as int == 48 + i
  {
    match i case 0 => case 1 => case 2 => case 3 => case 4 => case 5 => case 6 => case 7 => case 8 => case 9 =>
  }

  /** The character at place i of the alphabet, as a number. */
  lemma LetterAt(i: int)
    requires 0 <= i < 64
    ensures |ALPHABET| == 64
    ensures ALPHABET[i] as int == if i < 26 then 65 + i else if i < 52 then 71 + i
                                  else if i < 62 then i - 4 else if i == 62 then 43 else 47
  {
    if i < 26 {
      UpperAt(i);
    } else if i < 52 {
      LowerAt(i - 26);
    } else if i < 62 {
      DigitAt(i - 52);
    }
  }

  /** Char is the alphabet of RFC 4648, table 1, and Value the place in it; the pad is '='. */
  lemma AlphabetExact(v: byte, c: byte)
    ensures |ALPHABET| == 64 && PAD as int == '=' as int
    ensures v < 64 ==> Char(v) as int == ALPHABET[v] as int
    ensures Value(c) < 64 ==> ALPHABET[Value(c)] as int == c as int
    ensures Value(c) >= 64 ==> forall i :: 0 <= i < 64 ==> ALPHABET[i] as int != c as int
  {
    LetterAt(0);
    forall i | 0 <= i < 64
      ensures ALPHABET[i] as int == c as int ==> Value(c) as int == i
      ensures i == v as int ==> Char(v) as int == ALPHABET[i] as int
      ensures i == Value(c) as int ==> ALPHABET[i] as int == c as int
    {
      LetterAt(i);
    }
  }

  // The four values of three bytes, and back. The shifts of the original are quotients and
  // remainders here; where it joins bits with |, the bits do not overlap.

  function V0(a: byte): (v: byte)
    ensures v < 64
  { a / 4 }

  function V1(a: byte, b: byte): (v: byte)
    ensures v < 64
  { a % 4 * 16 + b / 16 }

  function V2(b: byte, c: byte): (v: byte)
    ensures v < 64
  { b % 16 * 4 + c / 64 }

  function V3(c: byte): (v: byte)
    ensures v < 64
  { c % 64 }

  function B0(p: byte, q: byte): byte
    requires p < 64 && q < 64
  { p * 4 + q / 16 }

  function B1(q: byte, r: byte): byte
    requires q < 64 && r < 64
  { q % 16 * 16 + r / 4 }

  function B2(r: byte, s: byte): byte
    requires r < 64 && s < 64
  { r % 4 * 64 + s }

  /** The last character of a text of two, or three, modulo four carries no bits beyond the bytes. */
  predicate NoStray2(v: byte) { v % 16 == 0 }
  predicate NoStray3(v: byte) { v % 4 == 0 }

  lemma BytesBack(a: byte, b: byte, c: byte)
    ensures B0(V0(a), V1(a, b)) == a && B1(V1(a, b), V2(b, c)) == b && B2(V2(b, c), V3(c)) == c
  {
  }

  lemma ValuesBack(p: byte, q: byte, r: byte, s: byte)
    requires p < 64 && q < 64 && r < 64 && s < 64
    ensures V0(B0(p, q)) == p && V1(B0(p, q), B1(q, r)) == q && V2(B1(q, r), B2(r, s)) == r && V3(B2(r, s)) == s
    ensures V1(B0(p, q), 0) == q <==> NoStray2(q)
    ensures V2(B1(q, r), 0) == r <==> NoStray3(r)
  {
  }

  // ---------- The texts ----------

  function EncodedLength(n: nat): nat
  {
    4 * ((n + 2) / 3)
  }

  lemma EncodedLengthSteps(n: nat)
    ensures EncodedLength(n) == if n == 0 then 0 else if n <= 2 then 4 else 4 + EncodedLength(n - 3)
  {
    assert n >= 3 ==> (n + 2) / 3 == 1 + (n - 3 + 2) / 3;
  }

  /** The encoding of s. */
  function Encoded(s: seq<byte>): (t: seq<byte>)
    ensures |t| == EncodedLength(|s|)
  {
    hide EncodedLength, Char, V0, V1, V2, V3;
    EncodedLengthSteps(|s|);
    if |s| == 0 then []
    else if |s| == 1 then [Char(V0(s[0])), Char(V1(s[0], 0)), PAD, PAD]
    else if |s| == 2 then [Char(V0(s[0])), Char(V1(s[0], s[1])), Char(V2(s[1], 0)), PAD]
    else [Char(V0(s[0])), Char(V1(s[0], s[1])), Char(V2(s[1], s[2])), Char(V3(s[2]))] + Encoded(s[3..])
  }

  /** How many characters come before the first pad. */
  function PrefixLength(t: seq<byte>): (n: nat)
    ensures n <= |t| && (forall i :: 0 <= i < n ==> t[i] != PAD) && (n < |t| ==> t[n] == PAD)
  {
    if t == [] || t[0] == PAD then 0 else 1 + PrefixLength(t[1..])
  }

  predicate Plain(p: seq<byte>)
  {
    forall i :: 0 <= i < |p| ==> Value(p[i]) != INVALID
  }

  /** A number of characters that some bytes encode to. */
  predicate Whole(n: nat)
  {
    n % 4 != 1
  }

  /** The bytes of a text without pads. */
  function Bytes(p: seq<byte>): seq<byte>
    requires Plain(p) && Whole(|p|)
  {
    if |p| == 0 then []
    else if |p| == 2 then [B0(Value(p[0]), Value(p[1]))]
    else if |p| == 3 then [B0(Value(p[0]), Value(p[1])), B1(Value(p[1]), Value(p[2]))]
    else [B0(Value(p[0]), Value(p[1])), B1(Value(p[1]), Value(p[2])), B2(Value(p[2]), Value(p[3]))] + Bytes(p[4..])
  }

  /** What decoding gives: nothing if and only if a character before the first pad is outside the
      alphabet, or their number is 1 modulo 4. */
  function Decoded(t: seq<byte>): Option<seq<byte>>
  {
    var p := t[..PrefixLength(t)];
    if !Plain(p) || !Whole(|p|) then None else Some(Bytes(p))
  }

  // ---------- Round trips ----------

  /** The text before the pads. */
  function Unpadded(s: seq<byte>): seq<byte>
  {
    Encoded(s)[..|Encoded(s)| - Pads(|s|)]
  }

  function Pads(n: nat): (k: nat)
    ensures k <= EncodedLength(n)
  {
    if n % 3 == 0 then 0 else 3 - n % 3
  }

  /** One group: its characters, and what they decode to. */
  lemma GroupBack(a: byte, b: byte, c: byte)
    ensures var p, q, r, s := Char(V0(a)), Char(V1(a, b)), Char(V2(b, c)), Char(V3(c));
            && PAD !in [p, q, r, s] && Plain([p, q, r, s])
            && Value(p) < 64 && Value(q) < 64 && Value(r) < 64 && Value(s) < 64
            && B0(Value(p), Value(q)) == a && B1(Value(q), Value(r)) == b && B2(Value(r), Value(s)) == c
  {
    BytesBack(a, b, c);
    TablesInverse(V0(a), 0);
    TablesInverse(V1(a, b), 0);
    TablesInverse(V2(b, c), 0);
    TablesInverse(V3(c), 0);
  }

  lemma {:induction false} UnpaddedBack(s: seq<byte>)
    ensures Plain(Unpadded(s)) && Whole(|Unpadded(s)|) && Bytes(Unpadded(s)) == s
    ensures PrefixLength(Encoded(s)) == |Unpadded(s)|
  {
    if |s| < 3 {
      LastBack(s);
    } else {
      UnpaddedBack(s[3..]);
      UnpaddedAdd(s);
    }
  }

  lemma LastBack(s: seq<byte>)
    requires |s| < 3
    ensures Plain(Unpadded(s)) && Whole(|Unpadded(s)|) && Bytes(Unpadded(s)) == s
    ensures PrefixLength(Encoded(s)) == |Unpadded(s)|
  {
    hide Char, Value, V0, V1, V2, V3, B0, B1, B2;
    if |s| == 1 {
      GroupBack(s[0], 0, 0);
      assert Unpadded(s) == [Char(V0(s[0])), Char(V1(s[0], 0))];
      PrefixIs(Encoded(s), 2);
    } else if |s| == 2 {
      GroupBack(s[0], s[1], 0);
      assert Unpadded(s) == [Char(V0(s[0])), Char(V1(s[0], s[1])), Char(V2(s[1], 0))];
      PrefixIs(Encoded(s), 3);
    }
  }

  lemma UnpaddedAdd(s: seq<byte>)
    requires |s| >= 3
    requires var u := s[3..]; Plain(Unpadded(u)) && Whole(|Unpadded(u)|) && Bytes(Unpadded(u)) == u
                              && PrefixLength(Encoded(u)) == |Unpadded(u)|
    ensures Plain(Unpadded(s)) && Whole(|Unpadded(s)|) && Bytes(Unpadded(s)) == s
    ensures PrefixLength(Encoded(s)) == |Unpadded(s)|
  {
    GroupBack(s[0], s[1], s[2]);
    var h := [Char(V0(s[0])), Char(V1(s[0], s[1])), Char(V2(s[1], s[2])), Char(V3(s[2]))];
    EncodedAdd(s);
    hide Char, Value, V0, V1, V2, V3, B0, B1, B2, Encoded, Unpadded, PrefixLength, Bytes, Plain, Pads;
    UnpaddedOf(h, s);
    PrefixAdd(h, Encoded(s[3..]));
    UnpaddedBytes(h, s);
  }

  lemma UnpaddedBytes(h: seq<byte>, s: seq<byte>)
    requires |s| >= 3 && |h| == 4 && Plain(h) && Unpadded(s) == h + Unpadded(s[3..])
    requires Plain(Unpadded(s[3..])) && Whole(|Unpadded(s[3..])|) && Bytes(Unpadded(s[3..])) == s[3..]
    requires Value(h[0]) < 64 && Value(h[1]) < 64 && Value(h[2]) < 64 && Value(h[3]) < 64
    requires B0(Value(h[0]), Value(h[1])) == s[0] && B1(Value(h[1]), Value(h[2])) == s[1]
             && B2(Value(h[2]), Value(h[3])) == s[2]
    ensures Plain(Unpadded(s)) && Whole(|Unpadded(s)|) && Bytes(Unpadded(s)) == s
  {
    hide Value, B0, B1, B2, Unpadded, Bytes, Plain;
    BytesAdd(h, Unpadded(s[3..]));
    assert s == [s[0], s[1], s[2]] + s[3..];
  }

  lemma EncodedAdd(s: seq<byte>)
    requires |s| >= 3
    ensures Encoded(s) == [Char(V0(s[0])), Char(V1(s[0], s[1])), Char(V2(s[1], s[2])), Char(V3(s[2]))] + Encoded(s[3..])
  {
    hide Char, V0, V1, V2, V3;
  }

  lemma UnpaddedOf(h: seq<byte>, s: seq<byte>)
    requires |s| >= 3 && |h| == 4 && Encoded(s) == h + Encoded(s[3..])
    ensures Unpadded(s) == h + Unpadded(s[3..])
  {
    hide *;
    var u := s[3..];
    PadsStep(|s|);
    UnpaddedIs(s);
    UnpaddedIs(u);
    CutAdd(h, Encoded(u), Pads(|u|));
  }

  lemma UnpaddedIs(s: seq<byte>)
    ensures Pads(|s|) <= |Encoded(s)| && Unpadded(s) == Encoded(s)[..|Encoded(s)| - Pads(|s|)]
  {
  }

  lemma PadsStep(n: nat)
    requires n >= 3
    ensures Pads(n) == Pads(n - 3)
  {
  }

  lemma CutAdd(h: seq<byte>, e: seq<byte>, k: nat)
    requires k <= |e|
    ensures (h + e)[..|h + e| - k] == h + e[..|e| - k]
  {
  }

  lemma PrefixAdd(h: seq<byte>, t: seq<byte>)
    requires |h| == 4 && PAD !in h
    ensures PrefixLength(h + t) == 4 + PrefixLength(t)
  {
    PrefixIs(h + t, 4 + PrefixLength(t));
  }

  lemma BytesAdd(h: seq<byte>, p: seq<byte>)
    requires |h| == 4 && Plain(h) && Plain(p) && Whole(|p|)
    ensures Plain(h + p)
    ensures Bytes(h + p) == [B0(Value(h[0]), Value(h[1])), B1(Value(h[1]), Value(h[2])),
                             B2(Value(h[2]), Value(h[3]))] + Bytes(p)
  {
    hide Value, B0, B1, B2;
    assert (h + p)[4..] == p;
    assert (h + p)[0] == h[0] && (h + p)[1] == h[1] && (h + p)[2] == h[2] && (h + p)[3] == h[3];
  }

  lemma PrefixIs(t: seq<byte>, n: nat)
    requires n <= |t| && (forall i :: 0 <= i < n ==> t[i] != PAD) && (n < |t| ==> t[n] == PAD)
    ensures PrefixLength(t) == n
  {
  }

  /** Decoding an encoding gives the bytes back, for every input. */
  lemma RoundTrip(s: seq<byte>)
    ensures Decoded(Encoded(s)) == Some(s)
  {
    UnpaddedBack(s);
    assert Encoded(s)[..PrefixLength(Encoded(s))] == Unpadded(s);
  }

  /** A text in the one form that encoding produces: whole groups, pads only to fill the last one,
      and no stray bits in the last character. */
  predicate Canonical(t: seq<byte>)
  {
    var n := PrefixLength(t);
    && |t| == (n + 3) / 4 * 4 && n % 4 != 1
    && (forall i :: n <= i < |t| ==> t[i] == PAD)
    && Plain(t[..n])
    && (n % 4 == 2 ==> NoStray2(Value(t[n - 1])))
    && (n % 4 == 3 ==> NoStray3(Value(t[n - 1])))
  }

  /** Encoding what an accepted text decodes to gives the text back if and only if it is canonical. */
  lemma {:induction false} CanonicalBack(t: seq<byte>)
    requires Decoded(t).Some?
    ensures Encoded(Decoded(t).value) == t <==> Canonical(t)
    decreases |t|
  {
    hide Char, Value, V0, V1, V2, V3, B0, B1, B2;
    var n := PrefixLength(t);
    if n == 0 {
      assert t[..n] == [];
    } else if n < 4 {
      ShortBack(t);
    } else {
      var h, u := t[..4], t[4..];
      assert t == h + u;
      assert t[..n] == h + u[..n - 4];
      PrefixAdd(h, u);
      TailPlain(t, n);
      BytesAdd(h, u[..n - 4]);
      CanonicalBack(u);
      FullGroup(h, Decoded(t).value, Decoded(u).value);
      CanonicalAdd(h, u);
    }
  }

  lemma TailPlain(t: seq<byte>, n: nat)
    requires 4 <= n <= |t| && Plain(t[..n])
    ensures Plain(t[..4]) && Plain(t[4..][..n - 4])
  {
    var p, a, b := t[..n], t[..4], t[4..][..n - 4];
    forall i | 0 <= i < |a|
      ensures Value(a[i]) != INVALID
    {
      assert a[i] == p[i];
    }
    forall i | 0 <= i < |b|
      ensures Value(b[i]) != INVALID
    {
      assert b[i] == p[i + 4];
    }
  }

  lemma CanonicalAdd(h: seq<byte>, u: seq<byte>)
    requires |h| == 4 && PAD !in h && Plain(h)
    ensures Canonical(h + u) <==> Canonical(u)
  {
    hide Value, PrefixLength, Plain, NoStray2, NoStray3;
    var t := h + u;
    PrefixAdd(h, u);
    var n, m := PrefixLength(t), PrefixLength(u);
    GroupMore(m);
    assert t[..n] == h + u[..m];
    PlainAdd(h, u[..m]);
    PadsAdd(h, u, m);
    assert m > 0 ==> t[n - 1] == u[m - 1];
  }

  lemma GroupMore(m: nat)
    ensures (m + 4) % 4 == m % 4 && (m + 4 + 3) / 4 * 4 == (m + 3) / 4 * 4 + 4
  {
  }

  lemma PlainAdd(h: seq<byte>, p: seq<byte>)
    requires |h| == 4 && Plain(h)
    ensures Plain(h + p) <==> Plain(p)
  {
    if Plain(h + p) {
      assert (h + p)[4..][..|p|] == p && (h + p)[..4 + |p|] == h + p;
      TailPlain(h + p, 4 + |p|);
    }
  }

  lemma PadsAdd(h: seq<byte>, u: seq<byte>, m: nat)
    requires |h| == 4 && m <= |u|
    ensures (forall i :: m + 4 <= i < |h + u| ==> (h + u)[i] == PAD) <==> (forall i :: m <= i < |u| ==> u[i] == PAD)
  {
    var t := h + u;
    assert forall i :: 0 <= i < |u| ==> u[i] == t[i + 4];
    assert forall i :: 4 <= i < |t| ==> t[i] == u[i - 4];
  }

  /** The three bytes of a full group are encoded as the group. */
  lemma FullGroup(h: seq<byte>, d: seq<byte>, e: seq<byte>)
    requires |h| == 4 && Plain(h)
    requires (TablesInverse(0, h[0]); TablesInverse(0, h[1]); TablesInverse(0, h[2]); TablesInverse(0, h[3]);
              d == [B0(Value(h[0]), Value(h[1])), B1(Value(h[1]), Value(h[2])), B2(Value(h[2]), Value(h[3]))] + e)
    ensures Encoded(d) == h + Encoded(e)
  {
    TablesInverse(0, h[0]);
    TablesInverse(0, h[1]);
    TablesInverse(0, h[2]);
    TablesInverse(0, h[3]);
    ValuesBack(Value(h[0]), Value(h[1]), Value(h[2]), Value(h[3]));
    hide Char, Value, V0, V1, V2, V3, B0, B1, B2;
    assert d[3..] == e;
  }

  /** Two or three characters before the first pad. */
  lemma ShortBack(t: seq<byte>)
    requires Decoded(t).Some? && PrefixLength(t) in {2, 3}
    ensures Encoded(Decoded(t).value) == t <==> Canonical(t)
  {
    var n := PrefixLength(t);
    var p := t[..n];
    assert p[0] == t[0] && p[1] == t[1] && p[n - 1] == t[n - 1];
    if n == 2 {
      TwoBack(t[0], t[1]);
    } else {
      ThreeBack(t[0], t[1], t[2]);
    }
    hide Char, Value, V0, V1, V2, V3, B0, B1, B2;
  }

  lemma TwoBack(a: byte, b: byte)
    requires Value(a) != INVALID && Value(b) != INVALID
    ensures Value(a) < 64 && Value(b) < 64
    ensures V1(B0(Value(a), Value(b)), 0) < 64
            && Encoded([B0(Value(a), Value(b))]) == [a, Char(V1(B0(Value(a), Value(b)), 0)), PAD, PAD]
    ensures Char(V1(B0(Value(a), Value(b)), 0)) == b <==> NoStray2(Value(b))
  {
    TablesInverse(0, a);
    TablesInverse(0, b);
    StrayBits(Value(a), Value(b));
    assert Encoded([B0(Value(a), Value(b))]) == [Char(V0(B0(Value(a), Value(b)))),
                                                 Char(V1(B0(Value(a), Value(b)), 0)), PAD, PAD] by {
      hide Value, Char, V0, V1, B0;
    }
    hide Value, Char, V0, V1, B0;
  }

  lemma StrayBits(v: byte, w: byte)
    requires v < 64 && w < 64
    ensures V0(B0(v, w)) == v && (Char(V1(B0(v, w), 0)) == Char(w) <==> NoStray2(w))
  {
    ValuesBack(v, w, 0, 0);
    hide *;
    CharInjective(V1(B0(v, w), 0), w);
  }

  lemma CharInjective(v: byte, w: byte)
    requires v < 64 && w < 64
    ensures Char(v) == Char(w) <==> v == w
  {
    TablesInverse(v, 0);
    TablesInverse(w, 0);
  }

  lemma ThreeBack(a: byte, b: byte, c: byte)
    requires Value(a) != INVALID && Value(b) != INVALID && Value(c) != INVALID
    ensures Value(a) < 64 && Value(b) < 64 && Value(c) < 64
    ensures var d := [B0(Value(a), Value(b)), B1(Value(b), Value(c))];
            V2(d[1], 0) < 64 && Encoded(d) == [a, b, Char(V2(d[1], 0)), PAD]
                && (Char(V2(d[1], 0)) == c <==> NoStray3(Value(c)))
  {
    TablesInverse(0, a);
    TablesInverse(0, b);
    TablesInverse(0, c);
    var v, w, x := Value(a), Value(b), Value(c);
    ValuesBack(v, w, x, 0);
    BytesBack(B0(v, w), B1(w, x), 0);
    TablesInverse(V2(B1(w, x), 0), 0);
    hide Char, Value, V0, V1, V2, V3, B0, B1, B2;
  }

  // ---------- The loops ----------

  /** *d++ = v for each v: the bytes go to position d, and nothing after them changes. */
  method Put(dst: array<byte>, d: nat, vs: seq<byte>)
    requires d + |vs| <= dst.Length
    modifies dst
    ensures dst[..d + |vs|] == old(dst[..d]) + vs && dst[d + |vs|..] == old(dst[d + |vs|..])
    ensures forall k :: 0 <= k < dst.Length && !(d <= k < d + |vs|) ==> dst[k] == old(dst[k])
  {
    forall k | 0 <= k < |vs| {
      dst[d + k] := vs[k];
    }
  }

  /** gvfs_encode_base64. */
  method EncodeBase64(dst: array<byte>, src: array<byte>, slen: nat) returns (dlen: nat)
    requires slen <= src.Length && dst != src && EncodedLength(slen) <= dst.Length
    modifies dst
    ensures dlen == EncodedLength(slen) && dst[..dlen] == Encoded(src[..slen]) && dst[dlen..] == old(dst[dlen..])
  {
    hide Char, V0, V1, V2, V3, EncodedLength, Encoded;
    ghost var t := Encoded(src[..slen]);
    ghost var after := dst[|t|..];
    var p, len := 0, slen;
    dlen := 0;
    assert src[0..slen] == src[..slen];
    while len > 2
      invariant p + len == slen && dlen <= |t| && t == dst[..dlen] + Encoded(src[p..slen]) && dst[|t|..] == after
      decreases len
    {
      ghost var u := src[p..slen];
      EncodedAdd(u);
      assert u[3..] == src[p + 3..slen];
      var a, b, c := src[p], src[p + 1], src[p + 2];
      Put(dst, dlen, [Char(V0(a)), Char(V1(a, b)), Char(V2(b, c)), Char(V3(c))]);
      dlen, p, len := dlen + 4, p + 3, len - 3;
    }
    ghost var done, start := dst[..dlen], dlen;
    dlen := EncodeRest(dst, src, p, len, dlen);
    assert dst[..dlen] == done + dst[start..dlen];
  }

  method EncodeRest(dst: array<byte>, src: array<byte>, p: nat, len: nat, dlen0: nat) returns (dlen: nat)
    requires p + len <= src.Length && len <= 2 && dst != src && dlen0 + |Encoded(src[p..p + len])| <= dst.Length
    modifies dst
    ensures dlen == dlen0 + |Encoded(src[p..p + len])| && dst[dlen0..dlen] == Encoded(src[p..p + len])
    ensures dst[..dlen0] == old(dst[..dlen0]) && dst[dlen..] == old(dst[dlen..])
  {
    hide Char, V0, V1, V2, V3;
    dlen := dlen0;
    if len > 0 {
      EncodedShort(src[p..p + len]);
      var a := src[p];
      if len == 1 {
        Put(dst, dlen, [Char(V0(a)), Char(V1(a, 0)), PAD, PAD]);
      } else {
        var b := src[p + 1];
        Put(dst, dlen, [Char(V0(a)), Char(V1(a, b)), Char(V2(b, 0)), PAD]);
      }
      dlen := dlen + 4;
    }
  }

  lemma EncodedShort(u: seq<byte>)
    ensures |u| == 1 ==> Encoded(u) == [Char(V0(u[0])), Char(V1(u[0], 0)), PAD, PAD]
    ensures |u| == 2 ==> Encoded(u) == [Char(V0(u[0])), Char(V1(u[0], u[1])), Char(V2(u[1], 0)), PAD]
  {
    hide Char, V0, V1, V2, V3;
  }

  /** The first loop of decoding: up to the first pad, or an error at a character outside the alphabet. */
  method ScanPrefix(src: array<byte>, slen: nat) returns (ok: bool, len: nat)
    requires slen <= src.Length
    ensures var t := src[..slen]; var n := PrefixLength(t); (ok <==> Plain(t[..n])) && (ok ==> len == n)
  {
    hide Value, PrefixLength;
    ghost var t := src[..slen];
    len := 0;
    while len < slen
      invariant len <= slen && forall i :: 0 <= i < len ==> t[i] != PAD && Value(t[i]) != INVALID
    {
      if src[len] == PAD {
        break;
      }
      if Value(src[len]) == INVALID {
        PrefixCovers(t, len);
        assert t[..PrefixLength(t)][len] == src[len];
        return false, len;
      }
      len := len + 1;
    }
    PrefixIs(t, len);
    ok := true;
  }

  lemma PrefixCovers(t: seq<byte>, k: nat)
    requires k < |t| && forall i :: 0 <= i <= k ==> t[i] != PAD
    ensures k < PrefixLength(t)
  {
    var n := PrefixLength(t);
    assert n == |t| || t[n] == PAD;
  }

  /** gvfs_decode_base64: fails exactly when Decoded has no value, and then writes nothing. It may
      decode in place: no byte is written before it is read. */
  method DecodeBase64(dst: array<byte>, src: array<byte>, slen: nat) returns (ok: bool, dlen: nat)
    requires slen <= src.Length
    requires Decoded(src[..slen]).Some? ==> |Decoded(src[..slen]).value| <= dst.Length
    modifies dst
    ensures ok <==> old(Decoded(src[..slen])).Some?
    ensures !ok ==> dst[..] == old(dst[..])
    ensures ok ==> dlen <= dst.Length && dst[..dlen] == old(Decoded(src[..slen])).value
                   && dst[dlen..] == old(dst[dlen..])
  {
    hide Value, PrefixLength, Bytes, Plain, B0, B1, B2;
    var len;
    ok, len := ScanPrefix(src, slen);
    dlen := 0;
    ghost var t := src[..slen];
    DecodedIs(t);
    if !ok {
      return;
    }
    if len % 4 == 1 {
      return false, 0;
    }
    assert t[..len] == src[..len];
    dlen := DecodeGroups(dst, src, len);
  }

  lemma DecodedIs(t: seq<byte>)
    ensures var p := t[..PrefixLength(t)]; Decoded(t) == if Plain(p) && Whole(|p|) then Some(Bytes(p)) else None
  {
  }

  lemma WholeLess(n: nat)
    requires Whole(n)
    ensures n != 1 && (n > 3 ==> Whole(n - 4))
  {
  }

  /** The rest of decoding: groups of four characters, then the last two or three. */
  method DecodeGroups(dst: array<byte>, src: array<byte>, n: nat) returns (dlen: nat)
    requires n <= src.Length && Plain(src[..n]) && Whole(n) && |Bytes(src[..n])| <= dst.Length
    modifies dst
    ensures dlen <= dst.Length && dst[..dlen] == old(Bytes(src[..n])) && dst[dlen..] == old(dst[dlen..])
  {
    hide Value, Bytes, Plain, Whole, B0, B1, B2;
    ghost var text, all := src[..n], Bytes(src[..n]);
    ghost var after := dst[|all|..];
    var s, len := 0, n;
    dlen := 0;
    assert src[0..n] == text && text[0..] == text;
    while len > 3
      invariant s + len == n && dlen <= |all| && dlen <= s && src[s..n] == text[s..]
      invariant Whole(len) && Plain(text[s..]) && all == dst[..dlen] + Bytes(text[s..])
      invariant dst[|all|..] == after
      decreases len
    {
      DecodeGroup(dst, src, s, n, dlen);
      assert text[s..][4..] == text[s + 4..];
      dlen, s, len := dlen + 3, s + 4, len - 4;
    }
    ghost var done, start := dst[..dlen], dlen;
    dlen := DecodeRest(dst, src, s, len, dlen);
    assert dst[..dlen] == done + dst[start..dlen];
  }

  /** The three bytes of a group; each depends on characters at and behind the place it is written to. */
  method PutGroup(dst: array<byte>, src: array<byte>, s: nat, n: nat, dlen: nat)
    requires s + 4 <= n <= src.Length && dlen + 3 <= dst.Length && (dst == src ==> dlen <= s)
    requires forall i :: s <= i < n ==> Value(src[i]) < 64
    modifies dst
    ensures var u := old(src[s..n]);
            dst[..dlen + 3] == old(dst[..dlen]) + [B0(Value(u[0]), Value(u[1])), B1(Value(u[1]), Value(u[2])),
                                                   B2(Value(u[2]), Value(u[3]))]
    ensures src[s + 4..n] == old(src[s..n])[4..] && dst[dlen + 3..] == old(dst[dlen + 3..])
  {
    hide Value, B0, B1, B2;
    Put(dst, dlen, [B0(Value(src[s]), Value(src[s + 1]))]);
    Put(dst, dlen + 1, [B1(Value(src[s + 1]), Value(src[s + 2]))]);
    Put(dst, dlen + 2, [B2(Value(src[s + 2]), Value(src[s + 3]))]);
    forall k | s + 4 <= k < n
      ensures src[k] == old(src[k])
    {
      assert dst == src ==> k >= dlen + 3;
    }
  }

  method DecodeGroup(dst: array<byte>, src: array<byte>, s: nat, n: nat, dlen: nat)
    requires s + 4 <= n <= src.Length && (dst == src ==> dlen <= s) && Plain(src[s..n]) && Whole(n - s)
             && dlen + |Bytes(src[s..n])| <= dst.Length
    modifies dst
    ensures src[s + 4..n] == old(src[s..n])[4..]
    ensures Whole(n - (s + 4)) && Plain(src[s + 4..n]) && |old(Bytes(src[s..n]))| == 3 + |Bytes(src[s + 4..n])|
    ensures dst[..dlen + 3] + Bytes(src[s + 4..n]) == old(dst[..dlen]) + old(Bytes(src[s..n]))
    ensures dst[dlen + 3..] == old(dst[dlen + 3..])
  {
    hide Value, Bytes, Plain, Whole, B0, B1, B2;
    ghost var u, before := src[s..n], dst[..dlen];
    WholeLess(n - s);
    BytesParts(u);
    PutGroup(dst, src, s, n, dlen);
    assert dst[..dlen + 3]
        == before + [B0(Value(u[0]), Value(u[1])), B1(Value(u[1]), Value(u[2])), B2(Value(u[2]), Value(u[3]))];
  }

  method DecodeRest(dst: array<byte>, src: array<byte>, s: nat, len: nat, dlen0: nat) returns (dlen: nat)
    requires s + len <= src.Length && len <= 3 && Whole(len) && (dst == src ==> dlen0 <= s) && Plain(src[s..s + len])
    requires dlen0 + |Bytes(src[s..s + len])| <= dst.Length
    modifies dst
    ensures dlen == dlen0 + |old(Bytes(src[s..s + len]))| && dst[dlen0..dlen] == old(Bytes(src[s..s + len]))
    ensures dst[..dlen0] == old(dst[..dlen0]) && dst[dlen..] == old(dst[dlen..])
  {
    hide Value, Bytes, Plain, Whole, B0, B1, B2;
    ghost var u := src[s..s + len];
    WholeLess(len);
    BytesParts(u);
    dlen := dlen0;
    if len > 1 {
      Put(dst, dlen, [B0(Value(src[s]), Value(src[s + 1]))]);
      dlen := dlen + 1;
    }
    if len > 2 {
      Put(dst, dlen, [B1(Value(src[s + 1]), Value(src[s + 2]))]);
      dlen := dlen + 1;
    }
  }

  lemma BytesParts(u: seq<byte>)
    requires Plain(u) && Whole(|u|)
    ensures forall i :: 0 <= i < |u| ==> Value(u[i]) < 64
    ensures |u| == 0 ==> Bytes(u) == []
    ensures |u| == 2 ==> Bytes(u) == [B0(Value(u[0]), Value(u[1]))]
    ensures |u| == 3 ==> Bytes(u) == [B0(Value(u[0]), Value(u[1]))] + [B1(Value(u[1]), Value(u[2]))]
    ensures |u| > 3 ==>
              && Plain(u[4..])
              && Bytes(u) == [B0(Value(u[0]), Value(u[1])), B1(Value(u[1]), Value(u[2])),
                              B2(Value(u[2]), Value(u[3]))] + Bytes(u[4..])
  {
    forall i | 0 <= i < |u|
      ensures Value(u[i]) < 64
    {
      TablesInverse(0, u[i]);
    }
    hide Value, B0, B1, B2;
  }

  // ---------- The bits ----------

  /** Four values, and three bytes, as one number of 24 bits. */
  function Bits4(p: byte, q: byte, r: byte, s: byte): int
  {
    ((p as int * 64 + q as int) * 64 + r as int) * 64 + s as int
  }

  function Bits3(a: byte, b: byte, c: byte): int
  {
    (a as int * 256 + b as int) * 256 + c as int
  }

  lemma GroupBits(a: byte, b: byte, c: byte)
    ensures Bits4(V0(a), V1(a, b), V2(b, c), V3(c)) == Bits3(a, b, c)
  {
  }

  lemma BytesBits(p: byte, q: byte, r: byte, s: byte)
    requires p < 64 && q < 64 && r < 64 && s < 64
    ensures Bits3(B0(p, q), B1(q, r), B2(r, s)) == Bits4(p, q, r, s)
  {
  }

  /** Group k of the encoding is the 24 bits of group k of the bytes, most significant first; one or
      two bytes left over are filled up with zero bits and pads. */
  lemma {:induction false} EncodedBits(s: seq<byte>, k: nat)
    requires 3 * k < |s|
    ensures var t, a := Encoded(s), s[3 * k];
            var b, c := if 3 * k + 1 < |s| then s[3 * k + 1] else 0, if 3 * k + 2 < |s| then s[3 * k + 2] else 0;
            && 4 * k + 4 <= |t| && (|s| <= 3 * k + 3 ==> |t| == 4 * k + 4)
            && Value(t[4 * k]) < 64 && Value(t[4 * k + 1]) < 64
            && (if 3 * k + 1 < |s| then Value(t[4 * k + 2]) < 64 else t[4 * k + 2] == PAD)
            && (if 3 * k + 2 < |s| then Value(t[4 * k + 3]) < 64 else t[4 * k + 3] == PAD)
            && Bits4(Value(t[4 * k]), Value(t[4 * k + 1]), Digit(t[4 * k + 2]), Digit(t[4 * k + 3])) == Bits3(a, b, c)
  {
    hide Char, Value, V0, V1, V2, V3, Bits4, Bits3, EncodedLength;
    EncodedLengthSteps(|s|);
    if k > 0 {
      EncodedAdd(s);
      EncodedBits(s[3..], k - 1);
    } else {
      GroupStart(s);
    }
  }

  /** The value of a character, 0 for a pad. */
  function Digit(c: byte): byte
  {
    if c == PAD then 0 else Value(c)
  }

  lemma GroupStart(s: seq<byte>)
    requires |s| > 0
    ensures var t, a := Encoded(s), s[0];
            var b, c := if 1 < |s| then s[1] else 0, if 2 < |s| then s[2] else 0;
            && 4 <= |t| && Value(t[0]) < 64 && Value(t[1]) < 64
            && (if 1 < |s| then Value(t[2]) < 64 else t[2] == PAD)
               && (if 2 < |s| then Value(t[3]) < 64 else t[3] == PAD)
            && Bits4(Value(t[0]), Value(t[1]), Digit(t[2]), Digit(t[3])) == Bits3(a, b, c)
  {
    hide Char, Value, Digit, V0, V1, V2, V3, Bits4, Bits3, EncodedLength, Encoded;
    StartChars(s);
    LastZero();
    if |s| == 1 {
      QuadBits(s[0], 0, 0);
    } else if |s| == 2 {
      QuadBits(s[0], s[1], 0);
    } else {
      QuadBits(s[0], s[1], s[2]);
    }
  }

  /** The first four characters. */
  lemma StartChars(s: seq<byte>)
    requires |s| > 0
    ensures var t := Encoded(s);
            && |t| >= 4 && t[0] == Char(V0(s[0]))
            && (|s| == 1 ==> t[1] == Char(V1(s[0], 0)) && t[2] == t[3] == PAD)
            && (|s| == 2 ==> t[1] == Char(V1(s[0], s[1])) && t[2] == Char(V2(s[1], 0)) && t[3] == PAD)
            && (|s| >= 3 ==> t[1] == Char(V1(s[0], s[1])) && t[2] == Char(V2(s[1], s[2])) && t[3] == Char(V3(s[2])))
  {
    hide Char, V0, V1, V2, V3, EncodedLength;
  }

  lemma QuadBits(a: byte, b: byte, c: byte)
    ensures Value(Char(V0(a))) == V0(a) && Digit(Char(V0(a))) == V0(a) && Value(Char(V1(a, b))) == V1(a, b)
    ensures Value(Char(V2(b, c))) == V2(b, c) && Digit(Char(V2(b, c))) == V2(b, c)
    ensures Value(Char(V3(c))) == V3(c) && Digit(Char(V3(c))) == V3(c) && Digit(PAD) == 0
    ensures Bits4(V0(a), V1(a, b), V2(b, c), V3(c)) == Bits3(a, b, c)
  {
    hide Char, Value, V0, V1, V2, V3, Bits4, Bits3;
    GroupBits(a, b, c);
    TablesInverse(V0(a), PAD);
    TablesInverse(V1(a, b), 0);
    TablesInverse(V2(b, c), 0);
    TablesInverse(V3(c), 0);
  }

  lemma LastZero()
    ensures V2(0, 0) == 0 && V3(0) == 0
  {
  }

  /** Group k of the decoded bytes is the 24 bits of the values of group k of the text; at the end two or three
      values give one or two bytes, and their last bits are dropped. */
  lemma {:induction false} DecodedBits(p: seq<byte>, k: nat)
    requires Plain(p) && Whole(|p|) && 4 * k < |p|
    ensures var u := Bytes(p);
            && 4 * k + 1 < |p| && Value(p[4 * k]) < 64 && Value(p[4 * k + 1]) < 64 && 3 * k < |u|
            && if |p| == 4 * k + 2 then
                 |u| == 3 * k + 1 && u[3 * k] as int == Bits4(0, 0, Value(p[4 * k]), Value(p[4 * k + 1])) / 16
               else if |p| == 4 * k + 3 then
                 |u| == 3 * k + 2 && Value(p[4 * k + 2]) < 64
                 && Bits3(0, u[3 * k], u[3 * k + 1])
                    == Bits4(0, Value(p[4 * k]), Value(p[4 * k + 1]), Value(p[4 * k + 2])) / 4
               else
                 3 * k + 2 < |u| && 4 * k + 3 < |p| && Value(p[4 * k + 2]) < 64 && Value(p[4 * k + 3]) < 64
                 && Bits3(u[3 * k], u[3 * k + 1], u[3 * k + 2])
                    == Bits4(Value(p[4 * k]), Value(p[4 * k + 1]), Value(p[4 * k + 2]), Value(p[4 * k + 3]))
  {
    hide Value, Bytes, Plain, Whole, B0, B1, B2, Bits3, Bits4;
    BytesParts(p);
    WholeLess(|p|);
    if k > 0 {
      DecodedBits(p[4..], k - 1);
    } else if |p| == 2 {
      TailBits(Value(p[0]), Value(p[1]), 0);
    } else if |p| == 3 {
      TailBits(Value(p[0]), Value(p[1]), Value(p[2]));
    } else {
      BytesBits(Value(p[0]), Value(p[1]), Value(p[2]), Value(p[3]));
    }
  }

  lemma TailBits(p: byte, q: byte, r: byte)
    requires p < 64 && q < 64 && r < 64
    ensures B0(p, q) as int == Bits4(0, 0, p, q) / 16 && Bits3(0, B0(p, q), B1(q, r)) == Bits4(0, p, q, r) / 4
  {
  }
}
