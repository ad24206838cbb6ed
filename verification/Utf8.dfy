/** UTF-8 (section 3 of RFC 3629): encoding, decoding that ignores malformed bytes, and the order
    of encoded text. */
module Utf8 {
  import opened Prelude
  import opened Ordering

  type Byte = b: int | 0 <= b < 256

  function EncodeChar(c: char): (r: seq<Byte>)
    ensures 1 <= |r| <= 4
  {
    var n := c as int;
    if n < 0x80 then [n]
    else if n < 0x800 then [0xC0 + n / 64, 0x80 + n % 64]
    else if n < 0x10000 then [0xE0 + n / 4096, 0x80 + n / 64 % 64, 0x80 + n % 64]
    else [0xF0 + n / 262144, 0x80 + n / 4096 % 64, 0x80 + n / 64 % 64, 0x80 + n % 64]
  }

  function Encode(s: string): seq<Byte> {
    if s == "" then [] else EncodeChar(s[0]) + Encode(s[1..])
  }

  predicate Tail(b: Byte) { 0x80 <= b < 0xC0 }

  function Low(b: Byte): int { b as int - 0x80 }

  predicate Scalar(n: int) { 0 <= n < 0xD800 || 0xE000 <= n < 0x110000 }

  /** The scalar value at the start of the bytes and its width, if the sequence there is whole,
      shortest-form and not a surrogate. */
  function DecodeFirst(bs: seq<Byte>): (r: Option<(char, nat)>)
    requires bs != []
    ensures r.Some? ==> 1 <= r.value.1 <= |bs|
  {
    var b := bs[0] as int;
    if b < 0x80 then Some((b as char, 1))
    else if 0xC2 <= b < 0xE0 then
      if |bs| >= 2 && Tail(bs[1]) then Some((((b - 0xC0) * 64 + Low(bs[1])) as char, 2)) else None
    else if 0xE0 <= b < 0xF0 then
      if |bs| >= 3 && Tail(bs[1]) && Tail(bs[2]) then
        var n := (b - 0xE0) * 4096 + Low(bs[1]) * 64 + Low(bs[2]);
        if n >= 0x800 && Scalar(n) then Some((n as char, 3)) else None
      else None
    else if 0xF0 <= b < 0xF5 then
      if |bs| >= 4 && Tail(bs[1]) && Tail(bs[2]) && Tail(bs[3]) then
        var n := (b - 0xF0) * 262144 + Low(bs[1]) * 4096 + Low(bs[2]) * 64 + Low(bs[3]);
        if n >= 0x10000 && Scalar(n) then Some((n as char, 4)) else None
      else None
    else None
  }

  /** `decode("utf-8", errors="ignore")` */
  function DecodeIgnore(bs: seq<Byte>): string {
    if bs == [] then ""
    else
      match DecodeFirst(bs)
      case None => DecodeIgnore(bs[1..])
      case Some((c, n)) => [c] + DecodeIgnore(bs[n..])
  }

  lemma OneDigit(n: nat)
    ensures n == n / 64 * 64 + n % 64
  {
  }

  lemma Shift(x: nat)
    ensures x / 64 / 64 == x / 4096 && x / 64 / 64 / 64 == x / 262144 && x / 4096 / 64 == x / 262144
  {
  }

  lemma ThreeDigits(n: nat)
    ensures n == n / 4096 * 4096 + n / 64 % 64 * 64 + n % 64
  {
    Shift(n);
    OneDigit(n);
    OneDigit(n / 64);
  }

  lemma FourDigits(n: nat)
    ensures n == n / 262144 * 262144 + n / 4096 % 64 * 4096 + n / 64 % 64 * 64 + n % 64
  {
    Shift(n);
    OneDigit(n);
    OneDigit(n / 64);
    OneDigit(n / 64 / 64);
  }

  lemma FirstWide(c: char, rest: seq<Byte>)
    requires c as int >= 0x10000
    ensures DecodeFirst(EncodeChar(c) + rest) == Some((c, 4))
  {
    FourDigits(c as int);
  }

  lemma FirstEncoded(c: char, rest: seq<Byte>)
    ensures DecodeFirst(EncodeChar(c) + rest) == Some((c, |EncodeChar(c)|))
  {
    var n := c as int;
    if n >= 0x10000 {
      FirstWide(c, rest);
    } else if n >= 0x800 {
      ThreeDigits(n);
    }
  }

  lemma SplitDigits(q: nat, r: nat)
    requires r < 64
    ensures (q * 64 + r) / 64 == q && (q * 64 + r) % 64 == r
  {
  }

  lemma ThreeBytes(b: nat, x: nat, y: nat)
    requires x < 64 && y < 64
    ensures var n := b * 4096 + x * 64 + y; n / 4096 == b && n / 64 % 64 == x && n % 64 == y
  {
    SplitDigits(b * 64 + x, y);
    SplitDigits(b, x);
    Shift(b * 4096 + x * 64 + y);
  }

  lemma FourBytes(b: nat, x: nat, y: nat, z: nat)
    requires x < 64 && y < 64 && z < 64
    ensures var n := b * 262144 + x * 4096 + y * 64 + z;
            n / 262144 == b && n / 4096 % 64 == x && n / 64 % 64 == y && n % 64 == z
  {
    var n := b * 262144 + x * 4096 + y * 64 + z;
    SplitDigits(b * 4096 + x * 64 + y, z);
    ThreeBytes(b, x, y);
    Shift(n);
    Shift(n / 64);
  }

  lemma DecodedEncodes(bs: seq<Byte>)
    requires bs != [] && DecodeFirst(bs).Some?
    ensures var (c, n) := DecodeFirst(bs).value; n == |EncodeChar(c)| && EncodeChar(c) <= bs
  {
    var b := bs[0] as int;
    if b < 0x80 {
      assert bs[..1] == [bs[0]];
    } else if b < 0xE0 {
      SplitDigits(b - 0xC0, Low(bs[1]));
      assert bs[..2] == [bs[0], bs[1]];
    } else if b < 0xF0 {
      ThreeBytes(b - 0xE0, Low(bs[1]), Low(bs[2]));
      assert bs[..3] == [bs[0], bs[1], bs[2]];
    } else {
      FourBytes(b - 0xF0, Low(bs[1]), Low(bs[2]), Low(bs[3]));
      assert bs[..4] == [bs[0], bs[1], bs[2], bs[3]];
    }
  }

  /** The first character of the bytes is c exactly when they start with the encoding of c. */
  lemma DecodeFirstExact(bs: seq<Byte>, c: char, n: nat)
    requires bs != []
    ensures DecodeFirst(bs) == Some((c, n)) <==> n == |EncodeChar(c)| && EncodeChar(c) <= bs
  {
    hide DecodeFirst, EncodeChar;
    if DecodeFirst(bs) == Some((c, n)) {
      DecodedEncodes(bs);
    }
    if EncodeChar(c) <= bs {
      FirstEncoded(c, bs[|EncodeChar(c)|..]);
      assert EncodeChar(c) + bs[|EncodeChar(c)|..] == bs;
    }
  }

  lemma {:induction false} EncodeAppend(a: string, b: string)
    ensures Encode(a + b) == Encode(a) + Encode(b)
  {
    if a == "" {
      assert a + b == b;
    } else {
      EncodeAppend(a[1..], b);
      assert (a + b)[1..] == a[1..] + b;
      assert EncodeChar(a[0]) + (Encode(a[1..]) + Encode(b)) == (EncodeChar(a[0]) + Encode(a[1..])) + Encode(b);
    }
  }

  lemma {:induction false} RoundTrip(s: string)
    ensures DecodeIgnore(Encode(s)) == s
  {
    if s != "" {
      FirstEncoded(s[0], Encode(s[1..]));
      assert Encode(s)[|EncodeChar(s[0])|..] == Encode(s[1..]);
      RoundTrip(s[1..]);
    }
  }

  lemma {:induction false} TailsVanish(bs: seq<Byte>)
    requires forall b | b in bs :: Tail(b)
    ensures DecodeIgnore(bs) == ""
  {
    if bs != [] {
      assert bs[0] in bs;
      TailsVanish(bs[1..]);
    }
  }

  /** A sequence cut short decodes to nothing. */
  lemma CutVanishes(c: char, k: nat)
    requires k < |EncodeChar(c)|
    ensures DecodeIgnore(EncodeChar(c)[..k]) == ""
  {
    var bs := EncodeChar(c)[..k];
    if k > 0 {
      assert forall b | b in bs[1..] :: Tail(b);
      TailsVanish(bs[1..]);
    }
  }

  /** How many whole characters fit in k bytes. */
  function Fitting(s: string, k: nat): (m: nat)
    ensures m <= |s|
  {
    if s == "" || |EncodeChar(s[0])| > k then 0 else 1 + Fitting(s[1..], k - |EncodeChar(s[0])|)
  }

  /** m is the longest prefix length whose encoding fits in k bytes. */
  ghost predicate LongestFit(s: string, k: nat, m: nat) {
    && m <= |s| && |Encode(s[..m])| <= k
    && forall j | m < j <= |s| :: |Encode(s[..j])| > k
  }

  lemma {:induction false} FittingLongest(s: string, k: nat)
    ensures LongestFit(s, k, Fitting(s, k))
  {
    if s != "" {
      var w := |EncodeChar(s[0])|;
      forall j | 0 < j <= |s| ensures Encode(s[..j]) == EncodeChar(s[0]) + Encode(s[1..][..j - 1]) {
        assert s[..j][1..] == s[1..][..j - 1];
      }
      if w <= k {
        FittingLongest(s[1..], k - w);
      }
    }
  }

  /** `_utf8_prefix` */
  function Utf8Prefix(s: string, limit: nat): string {
    DecodeIgnore(Encode(s)[..if limit <= |Encode(s)| then limit else |Encode(s)|])
  }

  /** Cutting the encoded text and ignoring the rest keeps exactly the whole characters that fit. */
  lemma {:induction false} PrefixExact(s: string, limit: nat)
    ensures Utf8Prefix(s, limit) == s[..Fitting(s, limit)]
    ensures LongestFit(s, limit, Fitting(s, limit))
  {
    FittingLongest(s, limit);
    if s != "" {
      var head, all := EncodeChar(s[0]), Encode(s);
      if |head| <= limit {
        PrefixExact(s[1..], limit - |head|);
        var cut := all[..if limit <= |all| then limit else |all|];
        var rest := Encode(s[1..]);
        assert cut == head + rest[..if limit - |head| <= |rest| then limit - |head| else |rest|];
        FirstEncoded(s[0], cut[|head|..]);
        assert s[..Fitting(s, limit)] == [s[0]] + s[1..][..Fitting(s[1..], limit - |head|)];
      } else {
        assert all[..limit] == head[..limit];
        CutVanishes(s[0], limit);
      }
    }
  }

  /** At most three bytes of the limit stay unused when the text is cut. */
  lemma FitsTightly(s: string, limit: nat)
    requires |Encode(s)| > limit
    ensures limit - 3 <= |Encode(s[..Fitting(s, limit)])| <= limit
  {
    FittingLongest(s, limit);
    var m := Fitting(s, limit);
    assert s[..|s|] == s;
    assert s[..m + 1] == s[..m] + [s[m]];
    EncodeAppend(s[..m], [s[m]]);
    assert [s[m]][1..] == "";
  }

  lemma {:induction false} AsciiLength(s: string)
    requires forall c | c in s :: c as int < 0x80
    ensures |Encode(s)| == |s|
  {
    if s != "" {
      assert s[0] in s && forall c | c in s[1..] :: c in s;
      AsciiLength(s[1..]);
    }
  }

  // ----- order -----

  predicate ByteLess(a: Byte, b: Byte) { a < b }

  lemma Digits(x: nat, y: nat)
    requires x < y
    ensures x / 64 < y / 64 || (x / 64 == y / 64 && x % 64 < y % 64)
  {
  }

  function Width(c: char): nat {
    var n := c as int;
    if n < 0x80 then 1 else if n < 0x800 then 2 else if n < 0x10000 then 3 else 4
  }

  lemma WidthsDiffer(c: char, d: char)
    requires c < d && Width(c) != Width(d)
    ensures DifferAt(ByteLess, EncodeChar(c), EncodeChar(d), 0)
  {
  }

  lemma WideDiffer(c: char, d: char) returns (k: nat)
    requires c < d && Width(c) == Width(d) == 4
    ensures DifferAt(ByteLess, EncodeChar(c), EncodeChar(d), k)
  {
    var x, y := c as int, d as int;
    Digits(x, y);
    Shift(x);
    Shift(y);
    if x / 64 == y / 64 {
      k := 3;
    } else {
      Digits(x / 64, y / 64);
      if x / 4096 == y / 4096 {
        k := 2;
      } else {
        Digits(x / 4096, y / 4096);
        k := if x / 262144 == y / 262144 then 1 else 0;
      }
    }
  }

  lemma NarrowDiffer(c: char, d: char) returns (k: nat)
    requires c < d && Width(c) == Width(d) <= 3
    ensures DifferAt(ByteLess, EncodeChar(c), EncodeChar(d), k)
  {
    var x, y := c as int, d as int;
    Digits(x, y);
    Shift(x);
    Shift(y);
    k := Width(c) - 1;
    if k > 0 && x / 64 < y / 64 {
      Digits(x / 64, y / 64);
      k := if Width(c) == 3 && x / 4096 == y / 4096 then 1 else 0;
    }
  }

  /** Smaller scalar values have smaller encodings, with a difference inside both. */
  lemma CharsDiffer(c: char, d: char) returns (k: nat)
    requires c < d
    ensures DifferAt(ByteLess, EncodeChar(c), EncodeChar(d), k)
  {
    if Width(c) == Width(d) == 4 {
      k := WideDiffer(c, d);
    } else if Width(c) == Width(d) {
      k := NarrowDiffer(c, d);
    } else {
      WidthsDiffer(c, d);
      k := 0;
    }
  }

  /** Sorting by encoded bytes is sorting by code points. */
  lemma {:induction false} OrderKept(a: string, b: string)
    ensures StringLess(a, b) <==> Lex(ByteLess, Encode(a), Encode(b))
  {
    if a != "" && b != "" {
      var p, q := Encode(a[1..]), Encode(b[1..]);
      if a[0] == b[0] {
        OrderKept(a[1..], b[1..]);
        LexPrefix(ByteLess, EncodeChar(a[0]), p, q);
      } else if a[0] < b[0] {
        var k := CharsDiffer(a[0], b[0]);
        assert (EncodeChar(a[0]) + p)[..k] == EncodeChar(a[0])[..k] &&
               (EncodeChar(b[0]) + q)[..k] == EncodeChar(b[0])[..k];
        LexDiffer(ByteLess, Encode(a), Encode(b), k);
      } else {
        var k := CharsDiffer(b[0], a[0]);
        assert (EncodeChar(a[0]) + p)[..k] == EncodeChar(a[0])[..k] &&
               (EncodeChar(b[0]) + q)[..k] == EncodeChar(b[0])[..k];
        LexDiffer(ByteLess, Encode(b), Encode(a), k);
      }
    }
  }
}
