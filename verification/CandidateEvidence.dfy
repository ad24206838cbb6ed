/** The byte-bounded evidence text of an audit candidate. */
module CandidateEvidence {
  import opened Prelude
  import opened Utf8

  const MAX_EXCERPT: nat := 512
  const SUFFIX: string := "; truncated=true"

  function Decimal(n: nat): string {
    (if n < 10 then "" else Decimal(n / 10)) + [(n % 10 + '0' as int) as char]
  }

  function JoinComma(values: seq<string>): string {
    if values == [] then "" else if |values| == 1 then values[0] else values[0] + ", " + JoinComma(values[1..])
  }

  function Header(caption: string, count: nat, identity: string): string {
    caption + ": count=" + Decimal(count) + "; sha256=" + identity + "; values="
  }

  function OrNone(joined: string): string { if joined == "" then "none" else joined }

  /** `bounded_candidate_evidence` on a caption and values whose runs of white space are already
      single spaces; identity is the digest of the values. */
  function BoundedEvidence(caption: string, values: seq<string>, identity: string): Result<string> {
    if caption == "" || "" in values then Err
    else
      var joined := JoinComma(values);
      var header := Header(caption, |values|, identity);
      var complete := header + OrNone(joined);
      if |Encode(complete)| <= MAX_EXCERPT then Ok(complete)
      else
        var limit := MAX_EXCERPT - |Encode(header)| - |Encode(SUFFIX)|;
        if limit < 1 then Err else Ok(header + Utf8Prefix(joined, limit) + SUFFIX)
  }

  // ----- the parts of the text -----

  function FromDigits(digits: string): int {
    if digits == "" then 0
    else FromDigits(digits[..|digits| - 1]) * 10 + (digits[|digits| - 1] as int - 48)
  }

  /** The decimal numeral of n, without leading zeros. */
  ghost predicate Numeral(digits: string, n: nat) {
    && digits != "" && (forall i | 0 <= i < |digits| :: 48 <= digits[i] as int <= 57)
    && (|digits| > 1 ==> digits[0] != '0') && FromDigits(digits) == n
  }

  lemma {:induction false} DecimalExact(n: nat)
    ensures Numeral(Decimal(n), n) && (n > 0 ==> Decimal(n)[0] != '0')
  {
    var d := Decimal(n);
    var last := (n % 10 + '0' as int) as char;
    if n < 10 {
      assert d == [last] && d[..0] == "";
    } else {
      DecimalExact(n / 10);
      assert d[..|d| - 1] == Decimal(n / 10);
    }
  }

  /** The values stand in order, with a comma and a space between neighbours. */
  lemma {:induction false} JoinCommaExact(a: seq<string>, b: seq<string>, x: string)
    ensures JoinComma([]) == "" && JoinComma([x]) == x
    ensures a != [] && b != [] ==> JoinComma(a + b) == JoinComma(a) + ", " + JoinComma(b)
  {
    if a != [] && b != [] {
      assert (a + b)[1..] == a[1..] + b;
      if |a| > 1 {
        JoinCommaExact(a[1..], b, x);
        assert a[0] + ", " + (JoinComma(a[1..]) + ", " + JoinComma(b)) ==
               (a[0] + ", " + JoinComma(a[1..])) + ", " + JoinComma(b);
      } else {
        assert (a + b)[0] == a[0] && (a + b)[1..] == b;
      }
    }
  }

  ghost predicate Headed(header: string, caption: string, count: nat, identity: string) {
    exists digits :: Numeral(digits, count) &&
                     header == caption + ": count=" + digits + "; sha256=" + identity + "; values="
  }

  lemma HeaderExact(caption: string, count: nat, identity: string)
    ensures Headed(Header(caption, count, identity), caption, count, identity)
  {
    DecimalExact(count);
    hide Numeral;
  }

  lemma SuffixLength()
    ensures |Encode(SUFFIX)| == 16
  {
    hide Encode;
    AsciiLength(SUFFIX);
  }

  lemma NoneLength()
    ensures |Encode("none")| == 4
  {
    hide Encode;
    AsciiLength("none");
  }

  /** The result is at most 512 bytes. It is either the complete text, exactly when that fits,
      or the header, the longest whole-character prefix that leaves room for the marker, and
      the marker, and then it has 509 to 512 bytes. It fails only on empty text, or when the
      complete text does not fit and the header alone leaves no room. */
  lemma EvidenceBounded(caption: string, values: seq<string>, identity: string)
    ensures var r := BoundedEvidence(caption, values, identity);
            var joined, header := JoinComma(values), Header(caption, |values|, identity);
            var fits := |Encode(header + OrNone(joined))| <= MAX_EXCERPT;
            var limit := MAX_EXCERPT - |Encode(header)| - 16;
            && Headed(header, caption, |values|, identity)
            && (r.Err? <==> caption == "" || "" in values || (!fits && limit < 1))
            && (r.Ok? && fits ==> r.value == header + if joined == "" then "none" else joined)
            && (r.Ok? && !fits ==>
                  && 509 <= |Encode(r.value)| <= 512
                  && LongestFit(joined, limit, Fitting(joined, limit))
                  && r.value == header + joined[..Fitting(joined, limit)] + SUFFIX)
  {
    hide Encode, Utf8Prefix, LongestFit, Fitting, Headed, Header, JoinComma;
    HeaderExact(caption, |values|, identity);
    var joined, header := JoinComma(values), Header(caption, |values|, identity);
    SuffixLength();
    NoneLength();
    EncodeAppend(header, OrNone(joined));
    var limit := MAX_EXCERPT - |Encode(header)| - 16;
    if limit >= 1 && |Encode(header + OrNone(joined))| > MAX_EXCERPT {
      PrefixExact(joined, limit);
      FitsTightly(joined, limit);
      var kept := joined[..Fitting(joined, limit)];
      EncodeAppend(header, kept);
      EncodeAppend(header + kept, SUFFIX);
    }
  }
}
