/** Text helpers: lexicographic order, trimming, suffixes and decimal numerals. */
module Text {

  /** Lexicographic order of strings, the order `String::cmp` implements. */
  predicate LexLe(a: string, b: string) {
    a == [] || (b != [] && (a[0] < b[0] || (a[0] == b[0] && LexLe(a[1..], b[1..]))))
  }

  lemma {:induction false} LexTotal(a: string, b: string)
    ensures LexLe(a, b) || LexLe(b, a)
  {
    if a != [] && b != [] && a[0] == b[0] {
      LexTotal(a[1..], b[1..]);
    }
  }

  lemma {:induction false} LexTransitive(a: string, b: string, c: string)
    requires LexLe(a, b) && LexLe(b, c)
    ensures LexLe(a, c)
  {
    if a != [] && a[0] == b[0] && b[0] == c[0] {
      LexTransitive(a[1..], b[1..], c[1..]);
    }
  }

  predicate HasPrefix(s: string, p: string) {
    p <= s
  }

  predicate HasSuffix(s: string, t: string) {
    |t| <= |s| && s[|s| - |t|..] == t
  }

  function Digit(d: nat): char
    requires d < 10
  {
    "0123456789"[d]
  }

  /** Decimal numeral without leading zeros, as integers are printed. */
  function Decimal(n: nat): (s: string)
    ensures s != []
    ensures forall c :: c in s ==> '0' <= c <= '9'
  {
    if n < 10 then [Digit(n)] else Decimal(n / 10) + [Digit(n % 10)]
  }

  lemma {:induction false} DecimalInjective(m: nat, n: nat)
    requires Decimal(m) == Decimal(n)
    ensures m == n
  {
    if m >= 10 && n >= 10 {
      var a, b := Decimal(m), Decimal(n);
      assert a[..|a| - 1] == Decimal(m / 10) && b[..|b| - 1] == Decimal(n / 10);
      DecimalInjective(m / 10, n / 10);
      assert a[|a| - 1] == Digit(m % 10) && b[|b| - 1] == Digit(n % 10);
    }
  }

  /** Characters with Unicode's White_Space property, the ones `str::trim` removes. */
  predicate IsWhitespace(c: char) {
    || 0x09 as char <= c <= 0x0D as char
    || c in {' ', 0x85 as char, 0xA0 as char, 0x1680 as char, 0x2028 as char, 0x2029 as char,
             0x202F as char, 0x205F as char, 0x3000 as char}
    || 0x2000 as char <= c <= 0x200A as char
  }

  function TrimStart(s: string): string {
    if s != [] && IsWhitespace(s[0]) then TrimStart(s[1..]) else s
  }

  function TrimEnd(s: string): string {
    if s != [] && IsWhitespace(s[|s| - 1]) then TrimEnd(s[..|s| - 1]) else s
  }

  function Trim(s: string): string {
    TrimEnd(TrimStart(s))
  }

  predicate Blank(s: string) {
    Trim(s) == []
  }

  predicate IsTrimmed(s: string) {
    s == [] || (!IsWhitespace(s[0]) && !IsWhitespace(s[|s| - 1]))
  }

  lemma TrimOfTrimmed(s: string)
    requires IsTrimmed(s)
    ensures Trim(s) == s
  {
  }

  lemma {:induction false} TrimStartTrims(s: string)
    ensures TrimStart(s) == [] || !IsWhitespace(TrimStart(s)[0])
  {
    if s != [] && IsWhitespace(s[0]) {
      TrimStartTrims(s[1..]);
    }
  }

  lemma {:induction false} TrimEndTrims(s: string)
    ensures TrimEnd(s) <= s
    ensures TrimEnd(s) == [] || !IsWhitespace(TrimEnd(s)[|TrimEnd(s)| - 1])
  {
    if s != [] && IsWhitespace(s[|s| - 1]) {
      TrimEndTrims(s[..|s| - 1]);
    }
  }

  lemma TrimIsTrimmed(s: string)
    ensures IsTrimmed(Trim(s))
  {
    TrimStartTrims(s);
    TrimEndTrims(TrimStart(s));
  }

  function LowerChar(c: char): char {
    if 'A' <= c <= 'Z' then c - 'A' + 'a' else c
  }

  /** ASCII lower-casing; other characters are kept. */
  function Lower(s: string): string {
    seq(|s|, i requires 0 <= i < |s| => LowerChar(s[i]))
  }

  /** Bytes of a character in UTF-8. */
  function Utf8Width(c: char): nat {
    if c < 0x80 as char then 1 else if c < 0x800 as char then 2 else if c <= 0xFFFF as char then 3 else 4
  }

  /** `str::len`: the number of bytes. */
  function Utf8Len(s: string): nat {
    if s == [] then 0 else Utf8Width(s[0]) + Utf8Len(s[1..])
  }

  lemma {:induction false} Utf8LenConcat(a: string, b: string)
    ensures Utf8Len(a + b) == Utf8Len(a) + Utf8Len(b)
    ensures a != [] ==> Utf8Len(a) > 0
  {
    if a == [] {
      assert a + b == b;
    } else {
      Utf8LenConcat(a[1..], b);
      assert (a + b)[1..] == a[1..] + b;
    }
  }

  function Upper(s: string): string {
    seq(|s|, i requires 0 <= i < |s| => if 'a' <= s[i] <= 'z' then s[i] - 'a' + 'A' else s[i])
  }

  // ---------------------------------------------------------------- what these functions mean

  /** The order of texts is that of their first difference; a proper beginning comes first. */
  lemma {:induction false} LexByFirstDifference(common: string, a: string, b: string)
    ensures a == [] ==> LexLe(common + a, common + b)
    ensures a != [] && b != [] && a[0] < b[0] ==> LexLe(common + a, common + b) && !LexLe(common + b, common + a)
    ensures a == [] && b != [] ==> !LexLe(common + b, common + a)
  {
    if common == [] {
      assert common + a == a && common + b == b;
    } else {
      LexByFirstDifference(common[1..], a, b);
      assert (common + a)[1..] == common[1..] + a && (common + b)[1..] == common[1..] + b;
      assert (common + a)[0] == common[0] == (common + b)[0];
    }
  }

  predicate AllWhitespace(s: string) {
    forall i :: 0 <= i < |s| ==> IsWhitespace(s[i])
  }

  lemma {:induction false} TrimStartSplits(s: string) returns (lead: string)
    ensures s == lead + TrimStart(s) && AllWhitespace(lead)
  {
    lead := [];
    if s != [] && IsWhitespace(s[0]) {
      var rest := TrimStartSplits(s[1..]);
      lead := [s[0]] + rest;
    }
  }

  lemma {:induction false} TrimEndSplits(s: string) returns (trail: string)
    ensures s == TrimEnd(s) + trail && AllWhitespace(trail)
  {
    trail := [];
    if s != [] && IsWhitespace(s[|s| - 1]) {
      var rest := TrimEndSplits(s[..|s| - 1]);
      trail := rest + [s[|s| - 1]];
    }
  }

  /** Trimming takes whitespace from both ends and nothing else. */
  lemma TrimSplits(s: string) returns (lead: string, trail: string)
    ensures s == lead + Trim(s) + trail && AllWhitespace(lead) && AllWhitespace(trail) && IsTrimmed(Trim(s))
  {
    lead := TrimStartSplits(s);
    trail := TrimEndSplits(TrimStart(s));
    TrimIsTrimmed(s);
  }

  /** Lower-casing maps A to a and so on up to Z, and keeps everything else; upper-casing is the other way round. */
  lemma CaseOfChars(s: string, i: nat)
    requires i < |s|
    ensures |Lower(s)| == |s| == |Upper(s)|
    ensures 'A' <= s[i] <= 'Z' ==> 'a' <= Lower(s)[i] <= 'z' && (Lower(s)[i] - 'a') as int == (s[i] - 'A') as int
    ensures !('A' <= s[i] <= 'Z') ==> Lower(s)[i] == s[i]
    ensures 'a' <= s[i] <= 'z' ==> 'A' <= Upper(s)[i] <= 'Z' && (Upper(s)[i] - 'A') as int == (s[i] - 'a') as int
    ensures !('a' <= s[i] <= 'z') ==> Upper(s)[i] == s[i]
  {
  }

  /** The length of a text in bytes: one for ASCII, two, three and four for the next ranges. */
  lemma Utf8Widths(c: char)
    ensures (c as int) <= 0x7F ==> Utf8Len([c]) == 1
    ensures 0x80 <= (c as int) <= 0x7FF ==> Utf8Len([c]) == 2
    ensures 0x800 <= (c as int) <= 0xFFFF ==> Utf8Len([c]) == 3
    ensures 0x1_0000 <= (c as int) ==> Utf8Len([c]) == 4
  {
    assert [c][1..] == [];
  }
}
