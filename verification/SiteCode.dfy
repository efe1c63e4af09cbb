/** Site codes: turning free text into a slug, and finding a slug nobody uses. */
module SiteCode {
  import opened Common
  import opened Text

  // ---------------------------------------------------------------- words and slugs

  predicate WordChar(c: char) {
    'a' <= c <= 'z' || '0' <= c <= '9'
  }

  /** The character a slug keeps for `c`, if any. */
  function NormalizeChar(c: char): Option<char> {
    if WordChar(c) then Some(c)
    else if 'A' <= c <= 'Z' then Some(LowerChar(c))
    else if c in "-_. " then Some('-')
    else None
  }

  function Normalize(raw: string): (s: string)
    ensures forall i :: 0 <= i < |s| ==> WordChar(s[i]) || s[i] == '-'
  {
    if raw == [] then []
    else
      var c := NormalizeChar(raw[|raw| - 1]);
      Normalize(raw[..|raw| - 1]) + if c.Some? then [c.value] else []
  }

  /** The maximal dash-free runs of `s`. */
  function Words(s: string): (ws: seq<string>)
    ensures forall i :: 0 <= i < |ws| ==> ws[i] != []
    ensures s != [] && s[|s| - 1] != '-' ==> ws != []
    ensures ws == [] ==> forall i :: 0 <= i < |s| ==> s[i] == '-'
  {
    if s == [] then []
    else
      var p, c := s[..|s| - 1], s[|s| - 1];
      var ws := Words(p);
      if c == '-' then ws
      else if p == [] || p[|p| - 1] == '-' then ws + [[c]]
      else ws[..|ws| - 1] + [ws[|ws| - 1] + [c]]
  }

  function Join(ws: seq<string>): string {
    if ws == [] then []
    else if |ws| == 1 then ws[0]
    else Join(ws[..|ws| - 1]) + "-" + ws[|ws| - 1]
  }

  /** The slug of a text: its words, joined by single dashes. */
  function Slug(raw: string): string {
    Join(Words(Normalize(raw)))
  }

  predicate IsSlug(s: string) {
    && (forall i :: 0 <= i < |s| ==> WordChar(s[i]) || s[i] == '-')
    && (s != [] ==> s[0] != '-' && s[|s| - 1] != '-')
    && (forall i :: 0 <= i < |s| - 1 ==> s[i] != '-' || s[i + 1] != '-')
  }

  predicate IsWord(w: string) {
    w != [] && forall i :: 0 <= i < |w| ==> WordChar(w[i])
  }

  lemma {:induction false} WordsAreWords(s: string)
    requires forall i :: 0 <= i < |s| ==> WordChar(s[i]) || s[i] == '-'
    ensures forall i :: 0 <= i < |Words(s)| ==> IsWord(Words(s)[i])
  {
    if s != [] {
      WordsAreWords(s[..|s| - 1]);
    }
  }

  lemma {:induction false} JoinIsSlug(ws: seq<string>)
    requires forall i :: 0 <= i < |ws| ==> IsWord(ws[i])
    ensures IsSlug(Join(ws)) && (ws != [] ==> Join(ws) != [])
  {
    if |ws| > 1 {
      JoinIsSlug(ws[..|ws| - 1]);
    }
  }

  lemma SlugIsSlug(raw: string)
    ensures IsSlug(Slug(raw))
  {
    WordsAreWords(Normalize(raw));
    JoinIsSlug(Words(Normalize(raw)));
  }

  lemma {:induction false} NormalizeKeeps(s: string)
    requires forall i :: 0 <= i < |s| ==> WordChar(s[i]) || s[i] == '-'
    ensures Normalize(s) == s
  {
    if s != [] {
      NormalizeKeeps(s[..|s| - 1]);
    }
  }

  /** Appending to the last word appends to the joined text. */
  lemma JoinExtend(ws: seq<string>, c: char)
    requires ws != []
    ensures Join(ws[..|ws| - 1] + [ws[|ws| - 1] + [c]]) == Join(ws) + [c]
  {
    var vs := ws[..|ws| - 1] + [ws[|ws| - 1] + [c]];
    assert vs[..|vs| - 1] == ws[..|ws| - 1];
  }

  lemma JoinAppend(ws: seq<string>, w: string)
    ensures Join(ws + [w]) == if ws == [] then w else Join(ws) + "-" + w
  {
    assert (ws + [w])[..|ws|] == ws;
  }

  /** The text built so far by the loop: joined words, and the dash that ends an unfinished slug. */
  function Pending(s: string): string {
    Join(Words(s)) + if OpenDash(s) then "-" else []
  }

  predicate OpenDash(s: string) {
    s != [] && s[|s| - 1] == '-' && Words(s) != []
  }

  lemma PendingStep(s: string, c: char)
    ensures Pending(s + [c]) == if c == '-' && (OpenDash(s) || Words(s) == []) then Pending(s) else Pending(s) + [c]
    ensures OpenDash(s + [c]) <==> c == '-' && Words(s) != []
  {
    var t := s + [c];
    assert t[..|t| - 1] == s;
    var ws := Words(s);
    if c != '-' {
      if s == [] || s[|s| - 1] == '-' {
        JoinAppend(ws, [c]);
      } else {
        JoinExtend(ws, c);
      }
    }
  }

  lemma {:induction false} PendingOfPrefix(s: string)
    requires s != [] ==> s[0] != '-'
    requires forall i :: 0 <= i < |s| - 1 ==> s[i] != '-' || s[i + 1] != '-'
    ensures Pending(s) == s
  {
    if s != [] {
      var p, c := s[..|s| - 1], s[|s| - 1];
      PendingOfPrefix(p);
      PendingStep(p, c);
      assert p + [c] == s;
    }
  }

  /** A slug is its own slug, so making slugs twice changes nothing more. */
  lemma SlugFixedPoint(s: string)
    ensures Slug(s) == s <==> IsSlug(s)
    ensures Slug(Slug(s)) == Slug(s)
  {
    SlugIsSlug(s);
    SlugOfSlug(Slug(s));
    if IsSlug(s) {
      SlugOfSlug(s);
    }
  }

  lemma SlugOfSlug(s: string)
    requires IsSlug(s)
    ensures Slug(s) == s
  {
    NormalizeKeeps(s);
    PendingOfPrefix(s);
  }

  function TrimDashes(s: string): string {
    if s != [] && s[0] == '-' then TrimDashes(s[1..])
    else if s != [] && s[|s| - 1] == '-' then TrimDashes(s[..|s| - 1])
    else s
  }

  lemma TrimSlug(t: string)
    requires IsSlug(t)
    ensures TrimDashes(t) == t
    ensures t != [] ==> TrimDashes(t + ['-']) == t
  {
    if t != [] {
      var u := t + ['-'];
      assert u[0] == t[0] != '-' && u[|u| - 1] == '-' && u[..|u| - 1] == t;
    }
  }

  lemma TrimPending(s: string)
    requires forall i :: 0 <= i < |s| ==> WordChar(s[i]) || s[i] == '-'
    ensures TrimDashes(Pending(s)) == Join(Words(s))
  {
    WordsAreWords(s);
    JoinIsSlug(Words(s));
    TrimSlug(Join(Words(s)));
    assert OpenDash(s) ==> Pending(s) == Join(Words(s)) + ['-'];
    assert !OpenDash(s) ==> Pending(s) == Join(Words(s));
  }

  lemma PendingEmptyIff(s: string)
    ensures Pending(s) == [] <==> Words(s) == []
  {
    var ws := Words(s);
    if |ws| > 1 {
      assert Join(ws) == Join(ws[..|ws| - 1]) + "-" + ws[|ws| - 1];
    }
  }

  /** `slugify_site_code`: one pass that never writes a leading or a doubled dash. */
  method SlugifySiteCode(raw: string) returns (slug: string)
    ensures slug == Slug(raw)
    ensures IsSlug(slug)
  {
    var value, previousDash := "", false;
    ghost var s := "";
    for i := 0 to |raw|
      invariant s == Normalize(raw[..i])
      invariant value == Pending(s) && previousDash == OpenDash(s)
    {
      assert raw[..i + 1][..i] == raw[..i];
      var normalized := NormalizeChar(raw[i]);
      if normalized.None? {
        continue;
      }
      var c := normalized.value;
      PendingStep(s, c);
      PendingEmptyIff(s);
      s := s + [c];
      if c == '-' {
        if previousDash || value == "" {
          continue;
        }
        previousDash := true;
        value := value + [c];
      } else {
        previousDash := false;
        value := value + [c];
      }
    }
    assert raw[..|raw|] == raw;
    TrimPending(s);
    SlugIsSlug(raw);
    slug := TrimDashes(value);
  }

  // ---------------------------------------------------------------- an unused code

  function BeforeDot(s: string): string {
    if s == [] || s[0] == '.' then [] else [s[0]] + BeforeDot(s[1..])
  }

  /** The first source that leaves something to call the site: the wish, the domain, the name, a random id. */
  function BaseCode(preferred: Option<string>, name: string, domain: string, uuid: string): string {
    if preferred.Some? && Slug(Trim(preferred.value)) != [] then Slug(Trim(preferred.value))
    else if Slug(BeforeDot(domain)) != [] then Slug(BeforeDot(domain))
    else if Slug(name) != [] then Slug(name)
    else "site-" + uuid
  }

  /** The `k`-th code tried, from 1: the base, then the base with suffix 2, 3, ... */
  function Candidate(base: string, k: nat): string {
    if k <= 1 then base else base + "-" + Decimal(k)
  }

  lemma CandidatesDiffer(base: string, j: nat, k: nat)
    requires 1 <= j < k
    ensures Candidate(base, j) != Candidate(base, k)
  {
    if Candidate(base, j) == Candidate(base, k) {
      var s := Candidate(base, k);
      assert s[|base| + 1..] == Decimal(k);
      if j > 1 {
        assert Candidate(base, j)[|base| + 1..] == Decimal(j);
        DecimalInjective(j, k);
      }
    }
  }

  /** Among the existing codes there is room for no more than that many collisions. */
  lemma {:induction false} CollisionsBounded(base: string, existing: set<string>, n: nat)
    requires forall k :: 1 <= k <= n ==> Candidate(base, k) in existing
    ensures n <= |existing|
  {
    if n > 0 {
      var last := Candidate(base, n);
      forall k | 1 <= k <= n - 1 ensures Candidate(base, k) in existing - {last} {
        CandidatesDiffer(base, k, n);
      }
      CollisionsBounded(base, existing - {last}, n - 1);
    }
  }

  lemma SlugWithWord(base: string, w: string)
    requires IsSlug(base) && base != [] && IsWord(w)
    ensures IsSlug(base + ['-'] + w)
  {
    var s := base + ['-'] + w;
    assert forall i :: 0 <= i < |w| ==> s[|base| + 1 + i] == w[i];
    assert forall i :: 0 <= i < |base| ==> s[i] == base[i];
  }

  lemma DecimalIsWord(k: nat)
    ensures IsWord(Decimal(k))
  {
    var d := Decimal(k);
    assert forall i :: 0 <= i < |d| ==> d[i] in d;
  }

  lemma CandidateIsSlug(base: string, k: nat)
    requires IsSlug(base) && base != []
    ensures IsSlug(Candidate(base, k))
  {
    if k > 1 {
      DecimalIsWord(k);
      SlugWithWord(base, Decimal(k));
    }
  }

  method ChooseBase(preferred: Option<string>, name: string, domain: string, uuid: string) returns (base: string)
    ensures base == BaseCode(preferred, name, domain, uuid) && base != []
    ensures var wish := if preferred.Some? then Slug(Trim(preferred.value)) else [];
      && (wish != [] ==> base == wish)
      && (wish == [] && Slug(BeforeDot(domain)) != [] ==> base == Slug(BeforeDot(domain)))
      && (wish == [] && Slug(BeforeDot(domain)) == [] && Slug(name) != [] ==> base == Slug(name))
      && (wish == [] && Slug(BeforeDot(domain)) == [] && Slug(name) == [] ==> base == "site-" + uuid)
    ensures IsSlug("site-" + uuid) ==> IsSlug(base)
  {
    if preferred.Some? {
      base := SlugifySiteCode(Trim(preferred.value));
      if base != [] {
        return;
      }
    }
    base := SlugifySiteCode(BeforeDot(domain));
    if base == [] {
      base := SlugifySiteCode(name);
    }
    if base == [] {
      base := "site-" + uuid;
    }
  }

  /**
   * `generate_unique_site_code`: the first unused candidate, found after at most one collision
   * per existing code; it is itself a slug.
   */
  method GenerateUniqueSiteCode(existing: set<string>, preferred: Option<string>, name: string, domain: string, uuid: string)
    returns (code: string, suffix: nat)
    ensures code !in existing
    ensures 1 <= suffix <= |existing| + 1
    ensures code == Candidate(BaseCode(preferred, name, domain, uuid), suffix)
    ensures forall k :: 1 <= k < suffix ==> Candidate(BaseCode(preferred, name, domain, uuid), k) in existing
    ensures IsSlug("site-" + uuid) ==> IsSlug(code)
  {
    var base := ChooseBase(preferred, name, domain, uuid);
    code, suffix := base, 1;
    while code in existing
      invariant 1 <= suffix <= |existing| + 1
      invariant code == Candidate(base, suffix)
      invariant forall k :: 1 <= k < suffix ==> Candidate(base, k) in existing
      decreases |existing| + 1 - suffix
    {
      CollisionsBounded(base, existing, suffix);
      suffix := suffix + 1;
      code := base + "-" + Decimal(suffix);
    }
    if IsSlug("site-" + uuid) {
      CandidateIsSlug(base, suffix);
    }
  }

  // ---------------------------------------------------------------- character by character

  /** What a slug keeps of a character: small letters and digits as they are, capitals lowered, four separators as a dash. */
  lemma CharOfSlug(c: char)
    ensures 'a' <= c <= 'z' || '0' <= c <= '9' ==> NormalizeChar(c) == Some(c)
    ensures 'A' <= c <= 'Z' ==> NormalizeChar(c).Some? && 'a' <= NormalizeChar(c).value <= 'z'
                                && (NormalizeChar(c).value - 'a') as int == (c - 'A') as int
    ensures c == '-' || c == '_' || c == '.' || c == ' ' ==> NormalizeChar(c) == Some('-')
    ensures !('a' <= c <= 'z') && !('0' <= c <= '9') && !('A' <= c <= 'Z') && c != '-' && c != '_' && c != '.' && c != ' ' ==>
              NormalizeChar(c).None?
  {
    assert "-_. "[0] == '-' && "-_. "[1] == '_' && "-_. "[2] == '.' && "-_. "[3] == ' ';
  }

  /**
   * The slug of a longer text, by its last character: a letter or digit extends the last word, or begins a new
   * one after a separator; a separator or any other character adds nothing yet.
   */
  lemma SlugStep(raw: string, c: char)
    ensures NormalizeChar(c).None? ==> Slug(raw + [c]) == Slug(raw)
    ensures NormalizeChar(c) == Some('-') ==> Slug(raw + [c]) == Slug(raw)
    ensures NormalizeChar(c).Some? && NormalizeChar(c).value != '-' ==>
              Slug(raw + [c]) == Slug(raw) + (if OpenDash(Normalize(raw)) then "-" else []) + [NormalizeChar(c).value]
  {
    var s, n := Normalize(raw), NormalizeChar(c);
    assert (raw + [c])[..|raw|] == raw && (raw + [c])[|raw|] == c;
    if n.Some? {
      assert Normalize(raw + [c]) == s + [n.value];
      PendingStep(s, n.value);
      if n.value == '-' {
        assert (s + ['-'])[..|s|] == s;
      }
    } else {
      assert Normalize(raw + [c]) == s;
    }
  }

  /** A separator is open after the text exactly when a kept character came before and the last kept one is a separator. */
  lemma OpenAfter(raw: string, c: char)
    ensures NormalizeChar(c).None? ==> OpenDash(Normalize(raw + [c])) == OpenDash(Normalize(raw))
    ensures NormalizeChar(c) == Some('-') ==> (OpenDash(Normalize(raw + [c])) <==> Slug(raw) != [])
    ensures NormalizeChar(c).Some? && NormalizeChar(c).value != '-' ==> !OpenDash(Normalize(raw + [c]))
  {
    var s, n := Normalize(raw), NormalizeChar(c);
    assert (raw + [c])[..|raw|] == raw && (raw + [c])[|raw|] == c;
    if n.Some? {
      assert Normalize(raw + [c]) == s + [n.value];
      PendingStep(s, n.value);
      PendingEmptyIff(s);
      WordsAreWords(s);
      JoinIsSlug(Words(s));
    } else {
      assert Normalize(raw + [c]) == s;
    }
  }

  /** The first label of a domain: everything before its first dot. */
  lemma {:induction false} BeforeDotIsFirstLabel(s: string)
    ensures BeforeDot(s) <= s && (forall i :: 0 <= i < |BeforeDot(s)| ==> BeforeDot(s)[i] != '.')
    ensures BeforeDot(s) == s || s[|BeforeDot(s)|] == '.'
  {
    if s != [] && s[0] != '.' {
      BeforeDotIsFirstLabel(s[1..]);
    }
  }

  /** The codes tried: the base itself, then the base with -2, -3 and so on. */
  lemma CandidateTexts(base: string, k: nat)
    ensures Candidate(base, 1) == base && Candidate(base, 2) == base + "-2" && Candidate(base, 3) == base + "-3"
    ensures k >= 2 ==> Candidate(base, k) == base + "-" + Decimal(k)
  {
    assert Decimal(2) == "2" && Decimal(3) == "3";
    assert base + "-" + "2" == base + "-2" && base + "-" + "3" == base + "-3";
  }
}
