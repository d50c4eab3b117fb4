/** Domain rules of the DNS policy: parsing, printing and matching on label boundaries. */
module DomainRules {
  import opened Wrappers

  datatype Kind = Suffix | Domain | Exact

  datatype Rule = Rule(kind: Kind, domain: string, explicitPrefix: bool)

  datatype Error = InvalidConfig

  // ----- names

  /** The Unicode White_Space characters. */
  predicate IsWhitespace(c: char) {
    || '\t' <= c <= '\r' || c == ' ' || c == '\U{85}' || c == '\U{A0}' || c == '\U{1680}'
       || '\U{2000}' <= c <= '\U{200A}'
    || c == '\U{2028}' || c == '\U{2029}' || c == '\U{202F}' || c == '\U{205F}' || c == '\U{3000}'
  }

  function TrimStart(s: string): string {
    if s != [] && IsWhitespace(s[0]) then TrimStart(s[1..]) else s
  }

  function TrimEnd(s: string): string {
    if s != [] && IsWhitespace(s[|s| - 1]) then TrimEnd(s[..|s| - 1]) else s
  }

  function TrimDots(s: string): string {
    if s != [] && s[|s| - 1] == '.' then TrimDots(s[..|s| - 1]) else s
  }

  function Lower(c: char): char {
    if 'A' <= c <= 'Z' then c - 'A' + 'a' else c
  }

  function Lowered(s: string): (r: string)
    ensures |r| == |s|
  {
    seq(|s|, i requires 0 <= i < |s| => Lower(s[i]))
  }

  function NormalizeName(s: string): string {
    Lowered(TrimDots(TrimEnd(TrimStart(s))))
  }

  predicate LabelChar(c: char) {
    'a' <= c <= 'z' || 'A' <= c <= 'Z' || '0' <= c <= '9' || c == '-' || c == '_'
  }

  // ----- labels

  /** The parts between dots. */
  function Labels(s: string): (r: seq<string>)
    ensures r != []
  {
    if s == [] then [[]] else WithChar(s[0], Labels(s[1..]))
  }

  function WithChar(c: char, rest: seq<string>): (r: seq<string>)
    requires rest != []
    ensures r != []
  {
    if c == '.' then [[]] + rest else [[c] + rest[0]] + rest[1..]
  }

  lemma WithCharAppend(c: char, a: seq<string>, b: seq<string>)
    requires a != []
    ensures WithChar(c, a + b) == WithChar(c, a) + b
  {
    assert (a + b)[1..] == a[1..] + b;
  }

  function Join(labels: seq<string>): string
    requires labels != []
  {
    if |labels| == 1 then labels[0] else labels[0] + ['.'] + Join(labels[1..])
  }

  predicate ValidLabel(part: string) {
    0 < |part| <= 63 && forall c <- part :: LabelChar(c)
  }

  predicate ValidName(s: string) {
    s != [] && |s| <= 253 && s[0] != '.' && s[|s| - 1] != '.' && forall part <- Labels(s) :: ValidLabel(part)
  }

  lemma {:induction false} JoinOfLabels(s: string)
    ensures Join(Labels(s)) == s
  {
    if s != [] {
      var rest, labels := Labels(s[1..]), Labels(s);
      JoinOfLabels(s[1..]);
      if s[0] == '.' {
        assert labels[1..] == rest;
      } else if |rest| == 1 {
        assert labels == [[s[0]] + rest[0]];
      } else {
        assert labels[1..] == rest[1..];
        assert Join(labels) == [s[0]] + (rest[0] + ['.'] + Join(rest[1..]));
      }
      assert s == [s[0]] + s[1..];
    }
  }

  lemma {:induction false} JoinAppend(a: seq<string>, b: seq<string>)
    requires a != [] && b != []
    ensures Join(a + b) == Join(a) + ['.'] + Join(b)
  {
    if |a| == 1 {
      assert (a + b)[1..] == b;
    } else {
      assert (a + b)[1..] == a[1..] + b;
      JoinAppend(a[1..], b);
      assert a[0] + ['.'] + (Join(a[1..]) + ['.'] + Join(b)) == (a[0] + ['.'] + Join(a[1..])) + ['.'] + Join(b);
    }
  }

  lemma {:induction false} LabelsAcrossDot(p: string, d: string)
    ensures Labels(p + ['.'] + d) == Labels(p) + Labels(d)
  {
    var s := p + ['.'] + d;
    if p == [] {
      assert s[1..] == d;
    } else {
      assert s[1..] == p[1..] + ['.'] + d;
      LabelsAcrossDot(p[1..], d);
      WithCharAppend(p[0], Labels(p[1..]), Labels(d));
    }
  }

  // ----- valid names by their characters

  predicate NameChar(c: char) {
    c in {'.', '-', '_'} || 'a' <= c <= 'z' || 'A' <= c <= 'Z' || '0' <= c <= '9'
  }

  /** Among the `n` characters from `i` on there is a dot. */
  ghost predicate DotWithin(s: string, i: nat, n: nat) {
    exists j | i <= j < i + n && j < |s| :: s[j] == '.'
  }

  /** No dot at either end, no two side by side, and never 64 characters without one. */
  ghost predicate WellDotted(s: string) {
    && s != [] && (forall c <- s :: NameChar(c)) && s[0] != '.' && s[|s| - 1] != '.'
    && (forall i | 0 < i < |s| :: s[i - 1] != '.' || s[i] != '.')
    && (forall i: nat | i + 64 <= |s| :: DotWithin(s, i, 64))
  }

  lemma {:induction false} OneLabel(s: string)
    requires '.' !in s
    ensures Labels(s) == [s]
  {
    if s != [] {
      OneLabel(s[1..]);
      assert [s[0]] + s[1..] == s;
    }
  }

  lemma OneLabelValid(s: string)
    requires '.' !in s
    ensures ValidLabel(s) <==> WellDotted(s)
  {
    assert |s| >= 64 ==> !DotWithin(s, 0, 64);
  }

  lemma DottedFront(a: string, t: string)
    requires '.' !in a && WellDotted(a + ['.'] + t)
    ensures ValidLabel(a) && WellDotted(t)
  {
    var s := a + ['.'] + t;
    var n := |a| + 1;
    assert s[|a|] == '.' && (forall i | 0 <= i < |a| :: s[i] == a[i]) && (forall i | 0 <= i < |t| :: s[n + i] == t[i]);
    assert |s| >= 64 ==> DotWithin(s, 0, 64);
    forall c | c in a ensures LabelChar(c) {
      assert c in s;
    }
    forall i: nat | i + 64 <= |t| ensures DotWithin(t, i, 64) {
      assert DotWithin(s, n + i, 64);
      var j :| n + i <= j < n + i + 64 && j < |s| && s[j] == '.';
      assert t[j - n] == '.';
    }
    forall i | 0 < i < |t| ensures t[i - 1] != '.' || t[i] != '.' {
      assert s[n + i - 1] != '.' || s[n + i] != '.';
    }
  }

  lemma DottedJoin(a: string, t: string)
    requires '.' !in a && ValidLabel(a) && WellDotted(t)
    ensures WellDotted(a + ['.'] + t)
  {
    var s := a + ['.'] + t;
    var n := |a| + 1;
    assert s[|a|] == '.' && (forall i | 0 <= i < |a| :: s[i] == a[i]) && (forall i | n <= i < |s| :: s[i] == t[i - n]);
    forall i: nat | i + 64 <= |s| ensures DotWithin(s, i, 64) {
      if i >= n {
        assert DotWithin(t, i - n, 64);
        var j :| i - n <= j < i - n + 64 && j < |t| && t[j] == '.';
        assert s[n + j] == '.';
      }
    }
  }

  lemma {:induction false} FirstDot(s: string) returns (a: string, t: string)
    requires '.' in s
    ensures s == a + ['.'] + t && '.' !in a
  {
    if s[0] == '.' {
      a, t := [], s[1..];
    } else {
      a, t := FirstDot(s[1..]);
      a := [s[0]] + a;
    }
  }

  /** The labels are valid if and only if the dots stand well. */
  lemma {:induction false} LabelsWellDotted(s: string)
    ensures (forall part <- Labels(s) :: ValidLabel(part)) <==> WellDotted(s)
    decreases |s|
  {
    if '.' in s {
      var a, t := FirstDot(s);
      LabelsAcrossDot(a, t);
      OneLabel(a);
      LabelsWellDotted(t);
      if WellDotted(s) {
        DottedFront(a, t);
      } else if ValidLabel(a) && WellDotted(t) {
        DottedJoin(a, t);
      }
    } else {
      OneLabel(s);
      OneLabelValid(s);
    }
  }

  // ----- matching

  predicate EndsWith(s: string, suffix: string) {
    |suffix| <= |s| && s[|s| - |suffix|..] == suffix
  }

  predicate Matches(rule: Rule, candidate: string) {
    var name := NormalizeName(candidate);
    match rule.kind
    case Suffix => EndsWith(name, rule.domain)
    case Domain => name == rule.domain
        || (EndsWith(name, rule.domain) && EndsWith(name[..|name| - |rule.domain|], ['.']))
    case Exact => name == rule.domain
  }

  ghost predicate LabelSuffix(labels: seq<string>, of: seq<string>) {
    |labels| <= |of| && of[|of| - |labels|..] == labels
  }

  /** The raw-string test of a domain rule is the suffix relation on lists of labels. */
  lemma DomainRuleMatchesLabels(rule: Rule, candidate: string)
    requires rule.kind == Domain
    ensures Matches(rule, candidate) <==> LabelSuffix(Labels(rule.domain), Labels(NormalizeName(candidate)))
  {
    var name, domain := NormalizeName(candidate), rule.domain;
    if Matches(rule, candidate) && name != domain {
      var k := |name| - |domain|;
      var p := name[..k - 1];
      assert name == p + ['.'] + domain;
      LabelsAcrossDot(p, domain);
    }
    if LabelSuffix(Labels(domain), Labels(name)) {
      var k := |Labels(name)| - |Labels(domain)|;
      var front := Labels(name)[..k];
      assert Labels(name) == front + Labels(domain);
      JoinOfLabels(name);
      JoinOfLabels(domain);
      if k == 0 {
        assert Labels(name) == Labels(domain);
      } else {
        JoinAppend(front, Labels(domain));
        assert name == Join(front) + ['.'] + domain;
        assert name[..|name| - |domain|] == Join(front) + ['.'];
      }
    }
  }

  /** A suffix rule matches every name that ends in its text, an exact rule that name alone. */
  lemma OtherRulesMatch(rule: Rule, candidate: string)
    ensures rule.kind == Suffix ==>
              (Matches(rule, candidate) <==> exists front :: NormalizeName(candidate) == front + rule.domain)
    ensures rule.kind == Exact ==> (Matches(rule, candidate) <==> NormalizeName(candidate) == rule.domain)
  {
    var name := NormalizeName(candidate);
    if rule.kind == Suffix && Matches(rule, candidate) {
      assert name == name[..|name| - |rule.domain|] + rule.domain;
    }
  }

  /** Every domain match is a suffix match and every exact match a domain match, on the same text. */
  lemma KindsNest(domain: string, candidate: string, explicitPrefix: bool)
    ensures Matches(Rule(Exact, domain, explicitPrefix), candidate) ==>
            Matches(Rule(Domain, domain, explicitPrefix), candidate)
    ensures Matches(Rule(Domain, domain, explicitPrefix), candidate) ==>
            Matches(Rule(Suffix, domain, explicitPrefix), candidate)
  {
  }

  // ----- what normalising does

  ghost predicate AllWhite(s: string) {
    forall c <- s :: IsWhitespace(c)
  }

  ghost predicate AllDots(s: string) {
    forall c <- s :: c == '.'
  }

  lemma {:induction false} TrimStartCuts(s: string)
    ensures exists cut :: AllWhite(cut) && s == cut + TrimStart(s)
    ensures TrimStart(s) != [] ==> !IsWhitespace(TrimStart(s)[0])
  {
    if s != [] && IsWhitespace(s[0]) {
      TrimStartCuts(s[1..]);
      var cut :| AllWhite(cut) && s[1..] == cut + TrimStart(s[1..]);
      assert s == ([s[0]] + cut) + TrimStart(s) && AllWhite([s[0]] + cut);
    } else {
      assert s == [] + TrimStart(s) && AllWhite([]);
    }
  }

  lemma {:induction false} TrimEndCuts(s: string)
    ensures exists cut :: AllWhite(cut) && s == TrimEnd(s) + cut
    ensures TrimEnd(s) != [] ==> !IsWhitespace(TrimEnd(s)[|TrimEnd(s)| - 1])
  {
    if s != [] && IsWhitespace(s[|s| - 1]) {
      var front := s[..|s| - 1];
      TrimEndCuts(front);
      var cut :| AllWhite(cut) && front == TrimEnd(front) + cut;
      assert s == TrimEnd(s) + (cut + [s[|s| - 1]]) && AllWhite(cut + [s[|s| - 1]]);
    } else {
      assert s == TrimEnd(s) + [] && AllWhite([]);
    }
  }

  lemma {:induction false} TrimDotsCuts(s: string)
    ensures exists cut :: AllDots(cut) && s == TrimDots(s) + cut
    ensures TrimDots(s) != [] ==> TrimDots(s)[|TrimDots(s)| - 1] != '.'
  {
    if s != [] && s[|s| - 1] == '.' {
      var front := s[..|s| - 1];
      TrimDotsCuts(front);
      var cut :| AllDots(cut) && front == TrimDots(front) + cut;
      assert s == TrimDots(s) + (cut + ['.']) && AllDots(cut + ['.']);
    } else {
      assert s == TrimDots(s) + [] && AllDots([]);
    }
  }

  /** The name between white space, without the dots at its end. */
  ghost predicate Core(s: string, core: string, before: string, dots: string, after: string) {
    && s == before + core + dots + after && AllWhite(before) && AllDots(dots) && AllWhite(after)
    && (core != [] ==> core[|core| - 1] != '.')
    && (core + dots != [] ==> !IsWhitespace((core + dots)[0]) && !IsWhitespace((core + dots)[|core + dots| - 1]))
  }

  /** Normalising strips white space around the name and dots at its end, and lowers the letters A to Z. */
  lemma NormalizeMeans(s: string) returns (core: string, before: string, dots: string, after: string)
    ensures Core(s, core, before, dots, after) && |NormalizeName(s)| == |core|
    ensures forall i | 0 <= i < |core| ::
              NormalizeName(s)[i] == if 'A' <= core[i] <= 'Z' then core[i] + 32 as char else core[i]
  {
    TrimStartCuts(s);
    before :| AllWhite(before) && s == before + TrimStart(s);
    var inner := TrimStart(s);
    TrimEndCuts(inner);
    after :| AllWhite(after) && inner == TrimEnd(inner) + after;
    var middle := TrimEnd(inner);
    TrimDotsCuts(middle);
    dots :| AllDots(dots) && middle == TrimDots(middle) + dots;
    core := TrimDots(middle);
    CoreOf(s, inner, middle, core, before, dots, after);
  }

  lemma CoreOf(s: string, inner: string, middle: string, core: string, before: string, dots: string, after: string)
    requires s == before + inner && inner == middle + after && middle == core + dots
    requires AllWhite(before) && AllDots(dots) && AllWhite(after) && (core != [] ==> core[|core| - 1] != '.')
    requires inner != [] ==> !IsWhitespace(inner[0])
    requires middle != [] ==> !IsWhitespace(middle[|middle| - 1])
    ensures Core(s, core, before, dots, after)
  {
    assert s == before + core + dots + after;
    assert middle != [] ==> middle[0] == inner[0];
  }

  // ----- parsing and printing

  function Parse(value: string): Result<Rule, Error> {
    var normalized := NormalizeName(value);
    if normalized == [] then Err(InvalidConfig)
    else if ValidName(FromNormal(normalized).domain) then Ok(FromNormal(normalized))
    else Err(InvalidConfig)
  }

  function FromNormal(normalized: string): Rule
    requires normalized != []
  {
    if normalized[0] == '*' then Rule(Suffix, normalized[1..], true)
    else if normalized[0] == '@' then Rule(Domain, normalized[1..], true)
    else if normalized[0] == '^' then Rule(Exact, normalized[1..], true)
    else Rule(Suffix, normalized, false)
  }

  function Prefix(rule: Rule): string {
    match rule.kind
    case Suffix => if rule.explicitPrefix then ['*'] else []
    case Domain => ['@']
    case Exact => ['^']
  }

  function Print(rule: Rule): string {
    Prefix(rule) + rule.domain
  }

  lemma {:induction false} ValidNameChars(s: string)
    requires forall part <- Labels(s) :: forall c <- part :: LabelChar(c)
    ensures forall c <- s :: LabelChar(c) || c == '.'
  {
    if s != [] {
      var rest, labels := Labels(s[1..]), Labels(s);
      forall part, c | part in rest && c in part ensures LabelChar(c) {
        if s[0] == '.' {
          assert part in labels;
        } else if part == rest[0] {
          assert labels[0] in labels && c in labels[0];
        } else {
          assert part in rest[1..] && part in labels;
        }
      }
      ValidNameChars(s[1..]);
      if s[0] != '.' {
        assert labels[0] in labels && s[0] in labels[0];
      }
      assert s == [s[0]] + s[1..];
    }
  }

  /** A name without white space at its ends or a final dot, already lower-case, is normal. */
  lemma NormalStays(s: string)
    requires s != [] && !IsWhitespace(s[0]) && !IsWhitespace(s[|s| - 1]) && s[|s| - 1] != '.'
    requires forall c <- s :: Lower(c) == c
    ensures NormalizeName(s) == s
  {
    assert forall i | 0 <= i < |s| :: s[i] in s;
    assert Lowered(s) == s;
  }

  lemma NormalIsLower(value: string)
    ensures forall c <- NormalizeName(value) :: Lower(c) == c
  {
    var trimmed := TrimDots(TrimEnd(TrimStart(value)));
    assert forall i | 0 <= i < |trimmed| :: Lower(Lowered(trimmed)[i]) == Lowered(trimmed)[i];
  }

  /**
    * The first character tells the kind, and the rest must be at most 253 letters, digits, dashes and underscores
    * with dots between them.
    */
  lemma ParsesExactly(value: string)
    ensures var name := NormalizeName(value);
            var marked := name != [] && name[0] in {'*', '@', '^'};
            var domain := if marked then name[1..] else name;
            && (Parse(value).Ok? <==> |domain| <= 253 && WellDotted(domain))
            && (Parse(value).Ok? ==>
                  && Parse(value).value.domain == domain && Parse(value).value.explicitPrefix == marked
                  && (Parse(value).value.kind == Domain <==> marked && name[0] == '@')
                  && (Parse(value).value.kind == Exact <==> marked && name[0] == '^'))
  {
    var name := NormalizeName(value);
    LabelsWellDotted(name);
    if name != [] {
      LabelsWellDotted(name[1..]);
    }
  }

  /** Every rule that parses is printed in a form that parses to the same rule. */
  lemma PrintedRuleParses(value: string)
    requires Parse(value).Ok?
    ensures Parse(Print(Parse(value).value)) == Ok(Parse(value).value)
  {
    var normalized := NormalizeName(value);
    NormalIsLower(value);
    PrintedIsNormal(normalized);
    NormalStays(normalized);
  }

  /** The printed rule is the text it was read from, which has no end that normalising would cut. */
  lemma PrintedIsNormal(normalized: string)
    requires normalized != [] && ValidName(FromNormal(normalized).domain)
    ensures Print(FromNormal(normalized)) == normalized
    ensures !IsWhitespace(normalized[0]) && !IsWhitespace(normalized[|normalized| - 1])
            && normalized[|normalized| - 1] != '.'
  {
    var domain := FromNormal(normalized).domain;
    ValidNameEnds(domain);
    PlainChar(domain[0]);
    PlainChar(domain[|domain| - 1]);
    assert normalized[|normalized| - 1] == domain[|domain| - 1];
    assert normalized == [normalized[0]] + normalized[1..];
  }

  lemma ValidNameEnds(s: string)
    requires ValidName(s)
    ensures LabelChar(s[0]) && LabelChar(s[|s| - 1])
  {
    assert forall part <- Labels(s) :: ValidLabel(part);
    ValidNameChars(s);
    assert s[0] in s && s[|s| - 1] in s;
  }

  lemma PlainChar(c: char)
    requires LabelChar(c)
    ensures !IsWhitespace(c) && c != '*' && c != '@' && c != '^' && c != '.'
  {
  }
}
