/** Release versions: `rel-<scope>-<timestamp>-<serial>`, the serial padded to three digits. */
module ReleaseVersion {
  import opened Text

  /** Zero padding to width three; longer numerals are kept whole. */
  function Pad3(s: string): string {
    if |s| == 1 then "00" + s else if |s| == 2 then "0" + s else s
  }

  /** `build_release_version`; `issuedAt` is the already formatted timestamp. */
  function BuildReleaseVersion(scope: string, issuedAt: string, serial: nat): string {
    "rel-" + scope + "-" + issuedAt + "-" + Pad3(Decimal(serial))
  }

  // ---------------------------------------------------------------- reading a version back

  function DigitValue(c: char): nat {
    if '0' <= c <= '9' then (c - '0') as nat else 0
  }

  function Value(s: string): nat {
    if s == [] then 0 else 10 * Value(s[..|s| - 1]) + DigitValue(s[|s| - 1])
  }

  predicate DashFree(s: string) {
    forall i :: 0 <= i < |s| ==> s[i] != '-'
  }

  function AfterLastDash(s: string): string {
    if s == [] || s[|s| - 1] == '-' then [] else AfterLastDash(s[..|s| - 1]) + [s[|s| - 1]]
  }

  /** The serial a version carries: the number after its last dash. */
  function SerialOf(version: string): nat {
    Value(AfterLastDash(version))
  }

  lemma {:induction false} ValueOfDecimal(n: nat)
    ensures Value(Decimal(n)) == n
  {
    var s := Decimal(n);
    if n < 10 {
      assert s[..0] == [];
    } else {
      ValueOfDecimal(n / 10);
      assert s[..|s| - 1] == Decimal(n / 10);
    }
  }

  lemma {:induction false} ValueIgnoresZero(s: string)
    ensures Value("0" + s) == Value(s)
  {
    var t := "0" + s;
    if s == [] {
      assert t[..0] == [];
    } else {
      ValueIgnoresZero(s[..|s| - 1]);
      assert t[..|t| - 1] == "0" + s[..|s| - 1];
    }
  }

  lemma DecimalDashFree(n: nat)
    ensures DashFree(Decimal(n))
  {
    var s := Decimal(n);
    assert forall i :: 0 <= i < |s| ==> s[i] in s;
  }

  lemma PadKeepsValue(s: string)
    ensures Value(Pad3(s)) == Value(s)
    ensures DashFree(s) ==> DashFree(Pad3(s))
  {
    ValueIgnoresZero(s);
    ValueIgnoresZero("0" + s);
    assert "0" + ("0" + s) == "00" + s;
  }

  lemma {:induction false} AfterLastDashSplits(p: string, d: string)
    requires DashFree(d)
    ensures AfterLastDash(p + "-" + d) == d
  {
    var s := p + "-" + d;
    if d == [] {
      assert s[|s| - 1] == '-';
    } else {
      AfterLastDashSplits(p, d[..|d| - 1]);
      assert s[..|s| - 1] == p + "-" + d[..|d| - 1];
      assert s[|s| - 1] == d[|d| - 1];
    }
  }

  /** Two texts that agree after splitting at their last dash agree on both sides. */
  lemma SplitUnique(p: string, d: string, q: string, e: string)
    requires DashFree(d) && DashFree(e)
    requires p + "-" + d == q + "-" + e
    ensures p == q && d == e
  {
    AfterLastDashSplits(p, d);
    AfterLastDashSplits(q, e);
    var s := p + "-" + d;
    assert s[..|p|] == p && s[..|q|] == q;
  }

  // ---------------------------------------------------------------- main results

  /** The serial can be read back from the version, whatever the scope and the timestamp. */
  lemma SerialRoundTrip(scope: string, issuedAt: string, serial: nat)
    ensures SerialOf(BuildReleaseVersion(scope, issuedAt, serial)) == serial
  {
    var d := Decimal(serial);
    DecimalDashFree(serial);
    PadKeepsValue(d);
    ValueOfDecimal(serial);
    AfterLastDashSplits("rel-" + scope + "-" + issuedAt, Pad3(d));
  }

  /** Versions with different serials differ, whatever the scopes and timestamps. */
  lemma SerialInjective(scopeA: string, atA: string, a: nat, scopeB: string, atB: string, b: nat)
    requires a != b
    ensures BuildReleaseVersion(scopeA, atA, a) != BuildReleaseVersion(scopeB, atB, b)
  {
    SerialRoundTrip(scopeA, atA, a);
    SerialRoundTrip(scopeB, atB, b);
  }

  /** With dash-free timestamps the version determines all three of its parts. */
  lemma VersionInjective(scopeA: string, atA: string, a: nat, scopeB: string, atB: string, b: nat)
    requires DashFree(atA) && DashFree(atB)
    requires BuildReleaseVersion(scopeA, atA, a) == BuildReleaseVersion(scopeB, atB, b)
    ensures scopeA == scopeB && atA == atB && a == b
  {
    SerialRoundTrip(scopeA, atA, a);
    SerialRoundTrip(scopeB, atB, b);
    var p, q := "rel-" + scopeA, "rel-" + scopeB;
    var d := Pad3(Decimal(a));
    DecimalDashFree(a);
    PadKeepsValue(Decimal(a));
    SplitUnique(p + "-" + atA, d, q + "-" + atB, d);
    SplitUnique(p, atA, q, atB);
    assert p[4..] == scopeA && q[4..] == scopeB;
  }

  lemma DecimalLong(n: nat)
    requires n >= 10
    ensures |Decimal(n)| == |Decimal(n / 10)| + 1 >= 2
  {
  }

  lemma OneDigit(n: nat)
    requires n < 10
    ensures Pad3(Decimal(n)) == "00" + [Digit(n)]
  {
  }

  lemma TwoDigits(n: nat)
    requires 10 <= n < 100
    ensures Pad3(Decimal(n)) == "0" + [Digit(n / 10), Digit(n % 10)]
  {
    assert Decimal(n / 10) == [Digit(n / 10)];
    assert Decimal(n) == [Digit(n / 10)] + [Digit(n % 10)];
  }

  /** Serials below a thousand take three digits, larger ones as many as they need. */
  lemma SerialDigits(n: nat)
    ensures n < 10 ==> Pad3(Decimal(n)) == "00" + [Digit(n)]
    ensures 10 <= n < 100 ==> Pad3(Decimal(n)) == "0" + [Digit(n / 10), Digit(n % 10)]
    ensures n >= 100 ==> Pad3(Decimal(n)) == Decimal(n)
  {
    if n < 10 {
      OneDigit(n);
    } else if n < 100 {
      TwoDigits(n);
    } else {
      DecimalLong(n);
      DecimalLong(n / 10);
    }
  }

  /** The format, on an example. */
  lemma VersionFormat()
    ensures BuildReleaseVersion("s", "1", 7) == "rel-s-1-007"
  {
    SerialDigits(7);
    assert "rel-" + "s" + "-" + "1" + "-" + "007" == "rel-s-1-007";
  }
}
