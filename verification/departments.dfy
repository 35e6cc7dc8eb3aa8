/** Department creation: deriving a short upper-case code from the requested
    code or name and making it unique against the stored departments by
    appending a counter. */
module Departments {
  import opened Wrappers

  datatype Department = Department(id: string, name: string, code: string, description: Option<string>)

  /** The JSON body of the POST; a field may be missing. */
  datatype Request = Request(name: Option<string>, code: Option<string>, description: Option<string>)

  datatype Outcome =
    | NameRequired
    | Created(department: Department, stored: seq<Department>)
    | Unresolved

  /** JavaScript truthiness of an optional string field. */
  predicate Truthy(v: Option<string>) {
    v.Some? && v.value != ""
  }

  // ---------------------------------------------------------------------
  // Decimal digits

  function Digit(d: nat): (c: char)
    requires d < 10
    ensures '0' <= c <= '9'
  {
    (48 + d) as char
  }

  predicate IsDigit(c: char) {
    '0' <= c <= '9'
  }

  /** The decimal spelling of `n`, as a template literal writes it. */
  function NatToString(n: nat): (r: string)
    ensures 1 <= |r|
    ensures forall i :: 0 <= i < |r| ==> IsDigit(r[i])
    decreases n
  {
    if n < 10 then [Digit(n)] else NatToString(n / 10) + [Digit(n % 10)]
  }

  /** Reads a string of decimal digits back as a number. */
  function ParseNat(s: string): nat
    requires forall i :: 0 <= i < |s| ==> IsDigit(s[i])
  {
    if |s| == 0 then 0
    else
      assert IsDigit(s[|s| - 1]);
      ParseNat(s[..|s| - 1]) * 10 + (s[|s| - 1] as int - 48)
  }

  /** Reading the spelling back gives the number: distinct counters spell
      distinct suffixes. */
  lemma {:induction false} NatToStringRoundTrip(n: nat)
    ensures ParseNat(NatToString(n)) == n
    decreases n
  {
    if n >= 10 {
      var s := NatToString(n);
      NatToStringRoundTrip(n / 10);
      assert s[..|s| - 1] == NatToString(n / 10);
    }
  }

  lemma {:induction false} NatToStringLength(n: nat)
    ensures n < 10 ==> |NatToString(n)| == 1
    ensures n < 100 ==> |NatToString(n)| <= 2
    ensures n < 1000 ==> |NatToString(n)| <= 3
    ensures n < 10000 ==> |NatToString(n)| <= 4
    decreases n
  {
    if n >= 10 {
      NatToStringLength(n / 10);
    }
  }

  // ---------------------------------------------------------------------
  // The base code

  /** The characters `String.prototype.trim` removes: the ECMAScript
      WhiteSpace and LineTerminator code points. */
  predicate IsSpace(c: char) {
    c == ' ' || c == '\t' || c == '\n' || c == '\r' || c == '\U{000B}' || c == '\U{000C}'
    || c == '\U{00A0}' || c == '\U{1680}' || ('\U{2000}' <= c <= '\U{200A}')
    || c == '\U{2028}' || c == '\U{2029}' || c == '\U{202F}' || c == '\U{205F}'
    || c == '\U{3000}' || c == '\U{FEFF}'
  }

  /** Every character of `s[lo..hi]` is a space. */
  predicate AllSpaces(s: string, lo: nat, hi: nat)
    requires lo <= hi <= |s|
    decreases hi - lo
  {
    lo == hi || (IsSpace(s[lo]) && AllSpaces(s, lo + 1, hi))
  }

  /** The first index from `i` on that holds no space (`|s|` if none). */
  function SkipSpaces(s: string, i: nat): (k: nat)
    requires i <= |s|
    ensures i <= k <= |s|
    decreases |s| - i
  {
    if i < |s| && IsSpace(s[i]) then SkipSpaces(s, i + 1) else i
  }

  /** The end of `s[lo..j]` once its trailing spaces are dropped. */
  function BackSpaces(s: string, lo: nat, j: nat): (k: nat)
    requires lo <= j <= |s|
    ensures lo <= k <= j
    decreases j
  {
    if lo < j && IsSpace(s[j - 1]) then BackSpaces(s, lo, j - 1) else j
  }

  /** Everything skipped is a space, and the scan stops at a non-space. */
  lemma {:induction false} SkipSpacesMeaning(s: string, i: nat)
    requires i <= |s|
    ensures AllSpaces(s, i, SkipSpaces(s, i))
    ensures SkipSpaces(s, i) < |s| ==> !IsSpace(s[SkipSpaces(s, i)])
    decreases |s| - i
  {
    if i < |s| && IsSpace(s[i]) {
      SkipSpacesMeaning(s, i + 1);
    }
  }

  /** Spaces over `[lo, hi)` followed by one at `hi` are spaces over
      `[lo, hi + 1)`. */
  lemma {:induction false} AllSpacesExtend(s: string, lo: nat, hi: nat)
    requires lo <= hi < |s|
    requires AllSpaces(s, lo, hi) && IsSpace(s[hi])
    ensures AllSpaces(s, lo, hi + 1)
    decreases hi - lo
  {
    if lo < hi {
      AllSpacesExtend(s, lo + 1, hi);
    }
  }

  /** Everything dropped is a space, and the scan stops after a non-space. */
  lemma {:induction false} BackSpacesMeaning(s: string, lo: nat, j: nat)
    requires lo <= j <= |s|
    ensures AllSpaces(s, BackSpaces(s, lo, j), j)
    ensures lo < BackSpaces(s, lo, j) ==> !IsSpace(s[BackSpaces(s, lo, j) - 1])
    decreases j
  {
    if lo < j && IsSpace(s[j - 1]) {
      BackSpacesMeaning(s, lo, j - 1);
      AllSpacesExtend(s, BackSpaces(s, lo, j), j - 1);
    }
  }

  /** `trim()`: `s` with the spaces at both ends removed. */
  function Trim(s: string): string {
    var i := SkipSpaces(s, 0);
    s[i..BackSpaces(s, i, |s|)]
  }

  lemma TrimCutsSpaces(s: string)
    ensures var i := SkipSpaces(s, 0);
      var j := BackSpaces(s, i, |s|);
      i <= j <= |s| && AllSpaces(s, 0, i) && AllSpaces(s, j, |s|)
  {
    SkipSpacesMeaning(s, 0);
    BackSpacesMeaning(s, SkipSpaces(s, 0), |s|);
  }

  lemma TrimKeepsNoSpaceAtEnds(s: string)
    ensures var i := SkipSpaces(s, 0);
      var j := BackSpaces(s, i, |s|);
      i < j ==> !IsSpace(s[i]) && !IsSpace(s[j - 1])
  {
    SkipSpacesMeaning(s, 0);
    BackSpacesMeaning(s, SkipSpaces(s, 0), |s|);
  }

  /** Trimming drops spaces only, and only at the ends: of the cut points
      `i` and `j` that `Trim` slices at, everything before `i` and from `j`
      on is a space, and the first and last characters kept are not. */
  lemma TrimSlice(s: string)
    ensures var i := SkipSpaces(s, 0);
      var j := BackSpaces(s, i, |s|);
      && i <= j <= |s|
      && AllSpaces(s, 0, i) && AllSpaces(s, j, |s|)
      && (i < j ==> !IsSpace(s[i]) && !IsSpace(s[j - 1]))
  {
    TrimCutsSpaces(s);
    TrimKeepsNoSpaceAtEnds(s);
  }

  /** `toUpperCase()` on ASCII letters. */
  function Upper(c: char): (u: char)
    ensures 'a' <= c <= 'z' ==> 'A' <= u <= 'Z'
    ensures !('a' <= c <= 'z') ==> u == c
  {
    if 'a' <= c <= 'z' then (c as int - 32) as char else c
  }

  function UpperAll(s: string): (r: string)
    ensures |r| == |s| && forall i :: 0 <= i < |s| ==> r[i] == Upper(s[i])
  {
    seq(|s|, i requires 0 <= i < |s| => Upper(s[i]))
  }

  predicate IsCodeChar(c: char) {
    'A' <= c <= 'Z' || '0' <= c <= '9'
  }

  /** `replace(/[^A-Z0-9]/g, '')`. */
  function KeepCodeChars(s: string): string {
    Filter(s, IsCodeChar)
  }

  const BaseLength := 8
  const CodeLength := 12

  /** The letters and digits left of the request once it is trimmed and
      upper-cased. */
  function Cleaned(source: string): string {
    KeepCodeChars(UpperAll(Trim(source)))
  }

  /** The base code: the code if given, else the name, cleaned and cut to 8
      characters; when nothing is left, "DEPT" and the random tag. */
  function Base(source: string, randomTag: nat): string
    requires randomTag < 1000
  {
    var cleaned := Cleaned(source);
    var cut := if |cleaned| <= BaseLength then cleaned else cleaned[..BaseLength];
    if cut == "" then "DEPT" + NatToString(randomTag) else cut
  }

  /** A base code is one to eight upper-case letters and digits. */
  lemma BaseShape(source: string, randomTag: nat)
    requires randomTag < 1000
    ensures 1 <= |Base(source, randomTag)| <= BaseLength
    ensures forall i :: 0 <= i < |Base(source, randomTag)| ==> IsCodeChar(Base(source, randomTag)[i])
  {
    var cleaned := Cleaned(source);
    FilterMembers(UpperAll(Trim(source)), IsCodeChar);
    assert forall i :: 0 <= i < |cleaned| ==> IsCodeChar(cleaned[i]) by {
      forall i | 0 <= i < |cleaned|
        ensures IsCodeChar(cleaned[i])
      {
        assert cleaned[i] in cleaned;
      }
    }
    NatToStringLength(randomTag);
  }

  lemma UpperAllAppend(a: string, b: string)
    ensures UpperAll(a + b) == UpperAll(a) + UpperAll(b)
  {
  }

  /** No space is a letter or digit, upper-cased or not. */
  lemma SpaceIsNoCode(c: char)
    requires IsSpace(c)
    ensures !IsCodeChar(Upper(c))
  {
  }

  lemma {:induction false} NoCodeCharInSpaces(s: string, lo: nat, hi: nat)
    requires lo <= hi <= |s|
    requires AllSpaces(s, lo, hi)
    ensures KeepCodeChars(UpperAll(s[lo..hi])) == ""
    decreases hi - lo
  {
    if lo < hi {
      NoCodeCharInSpaces(s, lo + 1, hi);
      SpaceIsNoCode(s[lo]);
      assert s[lo..hi] == [s[lo]] + s[lo + 1..hi];
      UpperAllAppend([s[lo]], s[lo + 1..hi]);
      FilterAppend(UpperAll([s[lo]]), UpperAll(s[lo + 1..hi]), IsCodeChar);
    }
  }

  /** Cutting off pieces without letters or digits at both ends keeps the
      cleaned code. */
  lemma KeepMiddle(s: string, i: nat, j: nat)
    requires i <= j <= |s|
    requires KeepCodeChars(UpperAll(s[0..i])) == "" && KeepCodeChars(UpperAll(s[j..|s|])) == ""
    ensures KeepCodeChars(UpperAll(s[i..j])) == KeepCodeChars(UpperAll(s))
  {
    var a, r, b := s[0..i], s[i..j], s[j..|s|];
    assert s == a + r + b;
    UpperAllAppend(a + r, b);
    UpperAllAppend(a, r);
    FilterAppend(UpperAll(a) + UpperAll(r), UpperAll(b), IsCodeChar);
    FilterAppend(UpperAll(a), UpperAll(r), IsCodeChar);
  }

  /** Trimming never changes the cleaned code: the characters it removes are
      not letters or digits. */
  lemma TrimIrrelevant(s: string)
    ensures Cleaned(s) == KeepCodeChars(UpperAll(s))
  {
    var i := SkipSpaces(s, 0);
    var j := BackSpaces(s, i, |s|);
    TrimSlice(s);
    NoCodeCharInSpaces(s, 0, i);
    NoCodeCharInSpaces(s, j, |s|);
    KeepMiddle(s, i, j);
  }

  lemma UpperTwice(s: string)
    ensures UpperAll(UpperAll(s)) == UpperAll(s)
  {
  }

  /** Letter case in the request does not matter. */
  lemma CaseIrrelevant(source: string, randomTag: nat)
    requires randomTag < 1000
    ensures Base(UpperAll(source), randomTag) == Base(source, randomTag)
  {
    TrimIrrelevant(source);
    TrimIrrelevant(UpperAll(source));
    UpperTwice(source);
    assert Cleaned(UpperAll(source)) == Cleaned(source);
  }

  // ---------------------------------------------------------------------
  // Making the code unique

  /** The n-th code tried: the base itself, then base + counter cut to 12
      characters. */
  function Candidate(base: string, n: nat): string {
    if n == 0 then base
    else
      var s := base + NatToString(n);
      if |s| <= CodeLength then s else s[..CodeLength]
  }

  /** How many codes the model tries: the handler has no bound; with a base
      of at most eight characters the first 10000 codes tried are pairwise
      distinct. */
  const Probes := 10000

  /** Up to `Probes` tries, distinct codes stay distinct. */
  lemma CandidateInjective(base: string, n: nat, m: nat)
    requires |base| <= BaseLength && n < Probes && m < Probes
    requires Candidate(base, n) == Candidate(base, m)
    ensures n == m
  {
    NatToStringLength(n);
    NatToStringLength(m);
    if n != 0 && m != 0 {
      var sn, sm := NatToString(n), NatToString(m);
      assert Candidate(base, n) == base + sn && Candidate(base, m) == base + sm;
      assert sn == (base + sn)[|base|..] && sm == (base + sm)[|base|..];
      NatToStringRoundTrip(n);
      NatToStringRoundTrip(m);
    }
  }

  /** The first `k` codes tried. */
  function Tried(base: string, k: nat): (r: set<string>)
    ensures forall c :: c in r <==> exists n :: 0 <= n < k && c == Candidate(base, n)
  {
    if k == 0 then {} else Tried(base, k - 1) + {Candidate(base, k - 1)}
  }

  lemma {:induction false} TriedSize(base: string, k: nat)
    requires |base| <= BaseLength && k <= Probes
    ensures |Tried(base, k)| == k
  {
    if k > 0 {
      TriedSize(base, k - 1);
      if Candidate(base, k - 1) in Tried(base, k - 1) {
        var n :| 0 <= n < k - 1 && Candidate(base, k - 1) == Candidate(base, n);
        CandidateInjective(base, k - 1, n);
      }
    }
  }

  /** The `while` loop from try `n` on: the first try whose code is not
      taken, within `Probes` tries. */
  function Probe(base: string, taken: set<string>, n: nat): (r: Option<nat>)
    requires n <= Probes
    requires forall m :: 0 <= m < n ==> Candidate(base, m) in taken
    ensures r.Some? ==> n <= r.value < Probes && Candidate(base, r.value) !in taken
    ensures r.Some? ==> forall m :: 0 <= m < r.value ==> Candidate(base, m) in taken
    ensures r.None? ==> forall m :: 0 <= m < Probes ==> Candidate(base, m) in taken
    decreases Probes - n
  {
    if n == Probes then None
    else if Candidate(base, n) !in taken then Some(n)
    else Probe(base, taken, n + 1)
  }

  /** With fewer than 10000 codes taken, the search always ends. */
  lemma ProbeSucceeds(base: string, taken: set<string>)
    requires |base| <= BaseLength && |taken| < Probes
    ensures Probe(base, taken, 0).Some?
  {
    if Probe(base, taken, 0).None? {
      TriedSize(base, Probes);
      SubsetSize(Tried(base, Probes), taken);
    }
  }

  /** The codes in use. */
  function Codes(ds: seq<Department>): (r: set<string>)
    ensures |r| <= |ds|
  {
    if |ds| == 0 then {} else {ds[0].code} + Codes(ds[1..])
  }

  /** A code is in use exactly when some stored department has it. */
  lemma {:induction false} CodesMembers(ds: seq<Department>)
    ensures forall c :: c in Codes(ds) <==> exists i :: 0 <= i < |ds| && ds[i].code == c
  {
    if |ds| > 0 {
      CodesMembers(ds[1..]);
      forall c | c in Codes(ds[1..])
        ensures exists i :: 0 <= i < |ds| && ds[i].code == c
      {
        var i :| 0 <= i < |ds[1..]| && ds[1..][i].code == c;
        assert ds[i + 1].code == c;
      }
      forall i | 1 <= i < |ds|
        ensures ds[i].code in Codes(ds[1..])
      {
        assert ds[1..][i - 1].code == ds[i].code;
      }
    }
  }

  /** Department codes are pairwise distinct. */
  ghost predicate CodesDistinct(ds: seq<Department>) {
    forall i, j :: 0 <= i < j < |ds| ==> ds[i].code != ds[j].code
  }

  /** The POST handler: refuse a missing or empty name, derive the base from
      the code or the name, probe for the first free code and store the new
      department. */
  function Create(stored: seq<Department>, req: Request, randomTag: nat, newId: string): Outcome
    requires randomTag < 1000
  {
    if !Truthy(req.name) then NameRequired
    else
      var base := Base(Source(req), randomTag);
      match Probe(base, Codes(stored), 0)
      case None => Unresolved
      case Some(n) =>
        var d := Department(newId, req.name.value, Candidate(base, n), req.description);
        Created(d, stored + [d])
  }

  /** The string the base is derived from: the code when it is truthy,
      else the name. */
  function Source(req: Request): string
    requires Truthy(req.name)
  {
    if Truthy(req.code) then req.code.value else req.name.value
  }

  /** A missing or empty name is refused, and only that; with fewer than
      10000 departments stored, any other request creates one. */
  lemma CreateRefusesOnlyNoName(stored: seq<Department>, req: Request, randomTag: nat, newId: string)
    requires randomTag < 1000
    ensures Create(stored, req, randomTag, newId).NameRequired? <==> !Truthy(req.name)
    ensures Truthy(req.name) && |stored| < Probes ==> Create(stored, req, randomTag, newId).Created?
  {
    if Truthy(req.name) && |stored| < Probes {
      var base := Base(Source(req), randomTag);
      BaseShape(Source(req), randomTag);
      ProbeSucceeds(base, Codes(stored));
    }
  }

  lemma CandidateLength(base: string, n: nat)
    requires 1 <= |base| <= BaseLength
    ensures 1 <= |Candidate(base, n)| <= CodeLength
  {
  }

  /** The department created carries the requested name and description
      and a code of one to twelve characters, and is appended to the stored
      ones. */
  lemma CreatedDepartment(stored: seq<Department>, req: Request, randomTag: nat, newId: string)
    requires randomTag < 1000
    requires Create(stored, req, randomTag, newId).Created?
    ensures var r := Create(stored, req, randomTag, newId);
      && Truthy(req.name)
      && r.stored == stored + [r.department]
      && r.department == Department(newId, req.name.value, r.department.code, req.description)
      && 1 <= |r.department.code| <= CodeLength
  {
    var base := Base(Source(req), randomTag);
    BaseShape(Source(req), randomTag);
    CandidateLength(base, Probe(base, Codes(stored), 0).value);
  }

  /** The code created is the first one tried that is not taken. */
  lemma CreatedCodeFirst(stored: seq<Department>, req: Request, randomTag: nat, newId: string)
    requires randomTag < 1000
    requires Create(stored, req, randomTag, newId).Created?
    ensures var r := Create(stored, req, randomTag, newId);
      exists n :: 0 <= n < Probes && r.department.code == Candidate(Base(Source(req), randomTag), n)
        && forall m :: 0 <= m < n ==> Candidate(Base(Source(req), randomTag), m) in Codes(stored)
  {
  }

  /** No stored department has the code created, so appending the new one
      keeps the codes distinct. */
  lemma CreatedCodeFresh(stored: seq<Department>, req: Request, randomTag: nat, newId: string)
    requires randomTag < 1000
    requires Create(stored, req, randomTag, newId).Created?
    ensures var r := Create(stored, req, randomTag, newId);
      && (forall i :: 0 <= i < |stored| ==> stored[i].code != r.department.code)
      && (CodesDistinct(stored) ==> CodesDistinct(r.stored))
  {
    var base := Base(Source(req), randomTag);
    var taken := Codes(stored);
    CodesMembers(stored);
    var code := Candidate(base, Probe(base, taken, 0).value);
    assert code !in taken;
  }
}
