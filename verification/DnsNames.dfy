/** Zones, certificate identifiers and record names of the DNS-01 challenge (section 8.4 of RFC 8555). */
module DnsNames {
  import opened Common
  import opened Text

  /** The name is the zone itself or a name below it. */
  predicate InZone(name: string, zone: string) {
    name == zone || HasSuffix(name, "." + zone)
  }

  function TrimDots(s: string): string {
    if s != [] && s[|s| - 1] == '.' then TrimDots(s[..|s| - 1]) else s
  }

  /** The identifier without its wildcard label. */
  function DnsDomain(identifier: string): string {
    if HasPrefix(identifier, "*.") then identifier[2..] else identifier
  }

  const ACME_LABEL := "_acme-challenge"

  function Dns01RecordName(identifier: string): string {
    ACME_LABEL + "." + DnsDomain(identifier)
  }

  /** The domain of an identifier as it is compared with zones. */
  function MatchedDomain(identifier: string): string {
    Lower(TrimDots(DnsDomain(identifier)))
  }

  predicate DomainMatchesZone(identifier: string, zone: string) {
    InZone(MatchedDomain(identifier), Lower(TrimDots(Trim(zone))))
  }

  /** No surrounding whitespace, no trailing dot, no upper-case letter. */
  predicate NormalName(s: string) {
    && IsTrimmed(s)
    && (s == [] || s[|s| - 1] != '.')
    && (forall i :: 0 <= i < |s| ==> !('A' <= s[i] <= 'Z'))
  }

  /** A normalized zone name is compared as it stands, and so is a normalized domain. */
  lemma MatchOfNormalNames(identifier: string, zone: string)
    requires NormalName(zone)
    ensures DomainMatchesZone(identifier, zone) <==> InZone(MatchedDomain(identifier), zone)
    ensures NormalName(DnsDomain(identifier)) ==> MatchedDomain(identifier) == DnsDomain(identifier)
  {
    TrimOfTrimmed(zone);
    assert Lower(zone) == zone;
    assert NormalName(DnsDomain(identifier)) ==> Lower(DnsDomain(identifier)) == DnsDomain(identifier);
  }

  lemma SuffixParts(s: string, t: string)
    requires HasSuffix(s, t)
    ensures s == s[..|s| - |t|] + t
  {
  }

  lemma SuffixOfConcat(s: string, t: string)
    ensures HasSuffix(s + t, t)
  {
  }

  /** Of two suffixes of one string, the shorter is a suffix of the longer. */
  lemma SuffixOfSuffix(s: string, t: string, u: string)
    requires HasSuffix(s, t) && HasSuffix(s, u) && |t| <= |u|
    ensures HasSuffix(u, t)
  {
    assert u[|u| - |t|..] == s[|s| - |u|..][|u| - |t|..];
  }

  /** Zones containing one name form a chain: the longer of two lies inside the shorter. */
  lemma MatchingZonesChain(name: string, a: string, b: string)
    requires InZone(name, a) && InZone(name, b) && |a| <= |b|
    ensures InZone(b, a)
  {
    if name != a && name != b {
      var da, db := "." + a, "." + b;
      SuffixOfSuffix(name, da, db);
      if |a| == |b| {
        assert da == db && a == da[1..] && b == db[1..];
      } else {
        SuffixOfConcat(".", b);
        SuffixOfSuffix(db, da, b);
      }
    }
  }

  lemma LongerZoneIsLonger(a: string, b: string)
    requires InZone(b, a)
    ensures b == a || (Utf8Len(a) < Utf8Len(b) && |a| < |b|)
  {
    if b != a {
      SuffixParts(b, "." + a);
      var head := b[..|b| - |"." + a|];
      assert b == (head + ".") + a;
      Utf8LenConcat(head + ".", a);
    }
  }

  // ---------------------------------------------------------------- choosing a zone

  function MatchingZones(zones: seq<string>, identifier: string): (r: seq<string>)
    ensures forall z :: z in r <==> z in zones && DomainMatchesZone(identifier, z)
  {
    if zones == [] then []
    else (if DomainMatchesZone(identifier, zones[0]) then [zones[0]] else []) + MatchingZones(zones[1..], identifier)
  }

  /** The last of the longest, as `max_by_key` returns it. */
  function LastLongest(zones: seq<string>): (m: string)
    requires zones != []
    ensures m in zones
    ensures forall z :: z in zones ==> Utf8Len(z) <= Utf8Len(m)
  {
    if |zones| == 1 then zones[0]
    else
      var m := LastLongest(zones[1..]);
      if Utf8Len(zones[0]) > Utf8Len(m) then zones[0] else m
  }

  /** The zone chosen for an identifier: the longest zone name that matches. */
  function LongestZone(zones: seq<string>, identifier: string): Option<string> {
    if MatchingZones(zones, identifier) == [] then None else Some(LastLongest(MatchingZones(zones, identifier)))
  }

  predicate NormalNames(zones: seq<string>) {
    forall z :: z in zones ==> NormalName(z)
  }

  /** Of two zones that contain a name, one at least as long in bytes lies inside the other. */
  lemma LongerContainsLonger(name: string, z: string, m: string)
    requires InZone(name, z) && InZone(name, m) && Utf8Len(z) <= Utf8Len(m)
    ensures InZone(m, z)
    ensures Utf8Len(z) == Utf8Len(m) ==> z == m
  {
    if |z| <= |m| {
      MatchingZonesChain(name, z, m);
      LongerZoneIsLonger(z, m);
    } else {
      MatchingZonesChain(name, m, z);
      LongerZoneIsLonger(m, z);
    }
  }

  /** Among normalized zones the longest matching one is unique: it lies inside every other zone that matches. */
  lemma LongestZoneInnermost(zones: seq<string>, identifier: string, z: string)
    requires NormalNames(zones) && z in zones && DomainMatchesZone(identifier, z)
    ensures var m := LongestZone(zones, identifier);
      && m.Some? && m.value in zones && DomainMatchesZone(identifier, m.value)
      && InZone(m.value, z)
      && (Utf8Len(z) == Utf8Len(m.value) ==> z == m.value)
  {
    var found := MatchingZones(zones, identifier);
    assert z in found;
    var m := LastLongest(found);
    MatchOfNormalNames(identifier, z);
    MatchOfNormalNames(identifier, m);
    LongerContainsLonger(MatchedDomain(identifier), z, m);
  }

  /** The choice does not depend on the order, or on repetitions, in which the zones are listed. */
  lemma LongestZoneIndependentOfOrder(zones: seq<string>, other: seq<string>, identifier: string)
    requires NormalNames(zones) && forall z :: z in zones <==> z in other
    ensures LongestZone(zones, identifier) == LongestZone(other, identifier)
  {
    var a, b := MatchingZones(zones, identifier), MatchingZones(other, identifier);
    assert forall z :: z in a <==> z in b;
    assert (a == [] || a[0] in a) && (b == [] || b[0] in b);
    if a != [] {
      var m, k := LastLongest(a), LastLongest(b);
      assert Utf8Len(m) == Utf8Len(k);
      LongestZoneInnermost(zones, identifier, k);
    }
  }

  // ---------------------------------------------------------------- record names

  function NormalizeRecordName(host: string, zone: string): string {
    if host == "@" then zone
    else if HasSuffix(host, zone) then host
    else host + "." + zone
  }

  /** The normalized name lies in the zone unless the host merely ends with the zone's letters. */
  lemma NormalizedNameInZoneIff(host: string, zone: string)
    ensures InZone(NormalizeRecordName(host, zone), zone)
       <==> host == "@" || !HasSuffix(host, zone) || InZone(host, zone)
  {
    if host != "@" && !HasSuffix(host, zone) {
      DotConcat(host, zone);
    }
  }

  /** Such a host is taken for a name in the zone and stored outside it. */
  lemma LookAlikeHostLeavesZone()
    ensures var host, zone := "badexample.com", "example.com";
      NormalizeRecordName(host, zone) == host && !InZone(host, zone)
  {
    var host, zone := "badexample.com", "example.com";
    assert host[|host| - |zone|..] == zone;
    assert host[|host| - |"." + zone|] != ("." + zone)[0];
  }

  /** The three cases of a record name. */
  lemma RecordNameCases(host: string, zone: string)
    ensures host == ['@'] ==> NormalizeRecordName(host, zone) == zone
    ensures host != ['@'] && HasSuffix(host, zone) ==> NormalizeRecordName(host, zone) == host
    ensures host != ['@'] && !HasSuffix(host, zone) ==> NormalizeRecordName(host, zone) == host + ['.'] + zone
  {
  }

  lemma DotConcat(head: string, tail: string)
    ensures HasSuffix(head + "." + tail, "." + tail)
  {
    SuffixOfConcat(head, "." + tail);
    assert head + ("." + tail) == head + "." + tail;
  }

  lemma SuffixOfSuffixed(s: string, zone: string)
    requires HasSuffix(s, "." + zone)
    ensures HasSuffix(s, zone)
  {
    assert s[|s| - |zone|..] == s[|s| - |"." + zone|..][1..];
  }

  lemma BelowInZone(head: string, name: string, zone: string)
    requires InZone(name, zone)
    ensures HasSuffix(head + "." + name, "." + zone)
    ensures HasSuffix(head + "." + name, zone)
  {
    var below := head + "." + name;
    if name == zone {
      DotConcat(head, zone);
    } else {
      var top := "." + zone;
      var k := |below| - |name|;
      assert below[k..] == name;
      assert below[|below| - |top|..] == name[|name| - |top|..];
    }
    SuffixOfSuffixed(below, zone);
  }

  /** A challenge record lies inside any zone that covers the identifier, and its name is left alone. */
  lemma ChallengeRecordInZone(identifier: string, zone: string)
    requires InZone(DnsDomain(identifier), zone)
    ensures HasSuffix(Dns01RecordName(identifier), "." + zone)
    ensures NormalizeRecordName(Dns01RecordName(identifier), zone) == Dns01RecordName(identifier)
  {
    BelowInZone(ACME_LABEL, DnsDomain(identifier), zone);
    assert |Dns01RecordName(identifier)| > |"@"|;
  }

  // ---------------------------------------------------------------- literal names

  /** The record name of a plain identifier, and of a wildcard for the same domain, spelled out. */
  lemma RecordNames(domain: string)
    requires !HasPrefix(domain, "*.")
    ensures Dns01RecordName(domain) == "_acme-challenge." + domain
    ensures Dns01RecordName("*." + domain) == "_acme-challenge." + domain
    ensures DnsDomain("*." + domain) == domain == DnsDomain(domain)
  {
    assert ("*." + domain)[2..] == domain && "*." <= "*." + domain;
    assert "_acme-challenge" + "." + domain == "_acme-challenge." + domain;
  }

  /** Trailing dots are not part of a name. */
  lemma {:induction false} TrimDotsKeeps(s: string) returns (dots: string)
    ensures s == TrimDots(s) + dots && (forall i :: 0 <= i < |dots| ==> dots[i] == '.')
    ensures TrimDots(s) == [] || TrimDots(s)[|TrimDots(s)| - 1] != '.'
  {
    dots := [];
    if s != [] && s[|s| - 1] == '.' {
      var rest := TrimDotsKeeps(s[..|s| - 1]);
      dots := rest + ['.'];
    }
  }

  lemma LowerOfUpper(s: string)
    requires NormalName(s)
    ensures Lower(Upper(s)) == s
  {
  }

  /** A wildcard is compared as the domain it covers. */
  lemma MatchIgnoresWildcard(domain: string, zone: string)
    requires NormalName(domain) && NormalName(zone) && !HasPrefix(domain, "*.")
    ensures DomainMatchesZone("*." + domain, zone) <==> InZone(domain, zone)
    ensures DomainMatchesZone(domain, zone) <==> InZone(domain, zone)
  {
    RecordNames(domain);
    MatchOfNormalNames("*." + domain, zone);
    MatchOfNormalNames(domain, zone);
  }

  /** The comparison ignores the case of the identifier and a trailing dot. */
  lemma MatchIgnoresCase(domain: string, zone: string, loud: string)
    requires NormalName(domain) && NormalName(zone) && domain != []
    requires loud == Upper(domain) + "." && !HasPrefix(loud, "*.")
    ensures DomainMatchesZone(loud, zone) <==> InZone(domain, zone)
  {
    assert loud[..|loud| - 1] == Upper(domain) && loud[|loud| - 1] == '.';
    assert Upper(domain)[|domain| - 1] != '.';
    assert TrimDots(loud) == TrimDots(Upper(domain)) == Upper(domain);
    LowerOfUpper(domain);
    MatchOfNormalNames(loud, zone);
  }
}
