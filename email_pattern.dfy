/** The regular expression `validateEmail` tests the trimmed address against:

      ^[a-zA-Z0-9.!#$%&'*+/=?^_`{|}~-]+@[a-zA-Z0-9-]+(?:\.[a-zA-Z0-9-]+)*$

    `MatchesEmailRegex` recognises it by scanning left to right (the way the regular
    expression's automaton does); `EmailShape` says declaratively which strings it
    describes, and the contract of `MatchesEmailRegex` says the two agree on every string. */
module EmailPattern {
  import opened JsText

  /** The class `[a-zA-Z0-9]`. */
  predicate IsAsciiAlnum(c: char) {
    IsAsciiLower(c) || IsAsciiUpper(c) || IsDigit(c)
  }

  /** The class `[a-zA-Z0-9.!#$%&'*+/=?^_`{|}~-]` of the local part. */
  predicate IsLocalChar(c: char) {
    IsAsciiAlnum(c) || c in ".!#$%&'*+/=?^_`{|}~-"
  }

  /** The class `[a-zA-Z0-9-]` of a domain label. */
  predicate IsLabelChar(c: char) {
    IsAsciiAlnum(c) || c == '-'
  }

  predicate AllLabelChars(p: string) {
    forall i :: 0 <= i < |p| ==> IsLabelChar(p[i])
  }

  /** One `[a-zA-Z0-9-]+`. */
  predicate IsLabel(l: string) {
    |l| > 0 && AllLabelChars(l)
  }

  /** The labels written one after the other with a single `.` between neighbours. */
  function JoinDots(labels: seq<string>): string {
    if |labels| <= 1 then (if labels == [] then [] else labels[0])
    else labels[0] + "." + JoinDots(labels[1..])
  }

  /** `[a-zA-Z0-9-]+(?:\.[a-zA-Z0-9-]+)*`: one or more labels separated by single dots. */
  ghost predicate IsDomain(d: string) {
    exists labels: seq<string> ::
      && |labels| > 0
      && (forall i :: 0 <= i < |labels| ==> IsLabel(labels[i]))
      && d == JoinDots(labels)
  }

  /** `s` splits at an `@` at index `k` into a non-empty local part and a domain. */
  ghost predicate EmailSplitAt(s: string, k: int) {
    && 0 < k < |s|
    && s[k] == '@'
    && (forall i :: 0 <= i < k ==> IsLocalChar(s[i]))
    && IsDomain(s[k + 1..])
  }

  /** The whole string (anchored by `^` and `$`) matches the regular expression. */
  ghost predicate EmailShape(s: string) {
    exists k :: EmailSplitAt(s, k)
  }

  /** Scans the domain part; `inLabel` records that the current label is non-empty. */
  function MatchDomain(d: string, inLabel: bool): bool {
    if d == [] then inLabel
    else if IsLabelChar(d[0]) then MatchDomain(d[1..], true)
    else if d[0] == '.' && inLabel then MatchDomain(d[1..], false)
    else false
  }

  /** Scans the local part; `seen` records that at least one local character was read. */
  function MatchLocal(s: string, seen: bool): bool {
    if s == [] then false
    else if IsLocalChar(s[0]) then MatchLocal(s[1..], true)
    else if s[0] == '@' && seen then MatchDomain(s[1..], false)
    else false
  }

  /** `email.match(validRegex)` is not null: the scanner accepts exactly the strings of the
      email shape. */
  function MatchesEmailRegex(s: string): (r: bool)
    ensures r <==> EmailShape(s)
  {
    MatchLocalIff([], s);
    assert [] + s == s;
    MatchLocal(s, false)
  }

  /** Every character of joined labels is a label character or a dot, and the first
      one (which exists) comes from the first label. */
  lemma {:induction false} JoinDotsChars(labels: seq<string>)
    requires |labels| > 0 && forall i :: 0 <= i < |labels| ==> IsLabel(labels[i])
    ensures |JoinDots(labels)| > 0 && IsLabelChar(JoinDots(labels)[0])
    ensures forall i :: 0 <= i < |JoinDots(labels)| ==>
              IsLabelChar(JoinDots(labels)[i]) || JoinDots(labels)[i] == '.'
    decreases |labels|
  {
    if |labels| > 1 {
      JoinDotsChars(labels[1..]);
      assert IsLabel(labels[0]);
      var j := JoinDots(labels[1..]);
      assert JoinDots(labels) == labels[0] + "." + j;
    } else {
      assert IsLabel(labels[0]);
    }
  }

  /** A domain is not empty, does not start with a dot and holds no character other than
      label characters and dots. */
  lemma NotDomain(d: string, k: nat)
    requires d == [] || (k < |d| && !IsLabelChar(d[k]) && (d[k] != '.' || k == 0))
    ensures !IsDomain(d)
  {
    forall labels: seq<string> |
      |labels| > 0 && (forall i :: 0 <= i < |labels| ==> IsLabel(labels[i]))
      ensures d != JoinDots(labels)
    {
      JoinDotsChars(labels);
    }
  }

  /** Two strings without dots, each followed by a dot, line up only if they are equal. */
  lemma DotSplit(a: string, r1: string, b: string, r2: string)
    requires AllLabelChars(a) && AllLabelChars(b)
    requires a + "." + r1 == b + "." + r2
    ensures a == b && r1 == r2
  {
    var x := a + "." + r1;
    assert x[|a|] == '.';
    assert (b + "." + r2)[|b|] == '.';
    assert |a| == |b|;
    assert a == x[..|a|];
    assert r1 == x[|a| + 1..];
  }

  /** Prefixing a domain with one more label and a dot gives a domain, and only then. */
  lemma DomainConsLabel(p: string, r: string)
    requires IsLabel(p)
    ensures IsDomain(p + "." + r) <==> IsDomain(r)
  {
    if IsDomain(r) {
      var labels: seq<string> :|
        |labels| > 0 && (forall i :: 0 <= i < |labels| ==> IsLabel(labels[i])) && r == JoinDots(labels);
      var more := [p] + labels;
      assert more[1..] == labels;
      assert JoinDots(more) == p + "." + r;
      assert forall i :: 0 <= i < |more| ==> IsLabel(more[i]);
    }
    if IsDomain(p + "." + r) {
      var labels: seq<string> :|
        |labels| > 0 && (forall i :: 0 <= i < |labels| ==> IsLabel(labels[i]))
        && p + "." + r == JoinDots(labels);
      assert |labels| > 1 by {
        assert (p + "." + r)[|p|] == '.';
        assert IsLabel(labels[0]);
      }
      assert IsLabel(labels[0]);
      DotSplit(p, r, labels[0], JoinDots(labels[1..]));
      assert forall i :: 0 <= i < |labels[1..]| ==> IsLabel(labels[1..][i]);
    }
  }

  /** Scanning the domain part from a state whose current label is `p` accepts the rest
      `d` exactly when `p + d` is a domain. */
  lemma {:induction false} MatchDomainIff(p: string, d: string)
    requires AllLabelChars(p)
    ensures MatchDomain(d, p != []) <==> IsDomain(p + d)
    decreases |d|
  {
    if d == [] {
      assert p + d == p;
      if p != [] {
        assert JoinDots([p]) == p;
      } else {
        NotDomain(p, 0);
      }
    } else if IsLabelChar(d[0]) {
      MatchDomainIff(p + [d[0]], d[1..]);
      assert p + d == (p + [d[0]]) + d[1..];
    } else if d[0] == '.' {
      if p == [] {
        NotDomain(d, 0);
      } else {
        MatchDomainIff([], d[1..]);
        DomainConsLabel(p, d[1..]);
        assert p + d == p + "." + d[1..];
      }
    } else {
      NotDomain(p + d, |p|);
    }
  }

  /** The `@` of an email split can only be the first character after the leading run of
      local characters (`@` is not one of them). */
  lemma SplitAfterLocalRun(x: string, n: int)
    requires 0 <= n <= |x| && forall i :: 0 <= i < n ==> IsLocalChar(x[i])
    requires n < |x| ==> !IsLocalChar(x[n])
    ensures EmailShape(x) <==> n < |x| && EmailSplitAt(x, n)
  {
    assert !IsLocalChar('@');
    if EmailShape(x) {
      var k :| EmailSplitAt(x, k);
      assert k == n;
    }
  }

  /** Scanning the local part from a state that has read the local characters `q` accepts
      the rest `s` exactly when `q + s` has the email shape. */
  lemma {:induction false} MatchLocalIff(q: string, s: string)
    requires forall i :: 0 <= i < |q| ==> IsLocalChar(q[i])
    ensures MatchLocal(s, q != []) <==> EmailShape(q + s)
    decreases |s|
  {
    if s == [] {
      assert q + s == q;
      SplitAfterLocalRun(q, |q|);
    } else if IsLocalChar(s[0]) {
      MatchLocalIff(q + [s[0]], s[1..]);
      assert q + s == (q + [s[0]]) + s[1..];
    } else if s[0] == '@' && q != [] {
      MatchDomainIff([], s[1..]);
      AtAfterLocal(q, s);
    } else {
      var x := q + s;
      assert x[|q|] == s[0];
      assert forall i :: 0 <= i < |q| ==> x[i] == q[i];
      SplitAfterLocalRun(x, |q|);
    }
  }

  /** After a non-empty local part, an `@` must be the split point. */
  lemma AtAfterLocal(q: string, s: string)
    requires forall i :: 0 <= i < |q| ==> IsLocalChar(q[i])
    requires q != [] && s != [] && s[0] == '@'
    ensures EmailShape(q + s) <==> IsDomain(s[1..])
  {
    var x := q + s;
    assert x[|q|] == s[0];
    assert x[|q| + 1..] == s[1..];
    assert forall i :: 0 <= i < |q| ==> x[i] == q[i];
    assert !IsLocalChar('@');
    SplitAfterLocalRun(x, |q|);
  }

  /** A single label is a domain. */
  lemma LabelIsDomain(l: string)
    requires IsLabel(l)
    ensures IsDomain(l)
  {
    assert JoinDots([l]) == l;
  }

  /** A non-empty run of local characters, an `@` and a domain have the email shape. */
  lemma LocalThenDomain(q: string, d: string)
    requires q != [] && forall i :: 0 <= i < |q| ==> IsLocalChar(q[i])
    requires IsDomain(d)
    ensures EmailShape(q + "@" + d)
  {
    assert ("@" + d)[1..] == d;
    AtAfterLocal(q, "@" + d);
    assert q + "@" + d == q + ("@" + d);
  }

  /** A non-empty run of lower-case ASCII letters is a label. */
  lemma LowerCaseLabel(l: string)
    requires l != [] && forall i :: 0 <= i < |l| ==> IsAsciiLower(l[i])
    ensures IsLabel(l)
  {
  }

  /** Two labels joined by a dot form a domain. */
  lemma NyuEduIsDomain()
    ensures IsDomain("nyu" + "." + "edu")
  {
    assert IsAsciiLower("edu"[0]) && IsAsciiLower("edu"[1]) && IsAsciiLower("edu"[2]);
    assert IsAsciiLower("nyu"[0]) && IsAsciiLower("nyu"[1]) && IsAsciiLower("nyu"[2]);
    LowerCaseLabel("edu");
    LowerCaseLabel("nyu");
    LabelIsDomain("edu");
    DomainConsLabel("nyu", "edu");
  }

  /** A dotted domain after a non-empty local part is accepted. */
  lemma AcceptsDottedDomain()
    ensures EmailShape("ab" + "@" + ("nyu" + "." + "edu"))
  {
    NyuEduIsDomain();
    assert IsLocalChar("ab"[0]) && IsLocalChar("ab"[1]);
    LocalThenDomain("ab", "nyu" + "." + "edu");
  }

  /** Labels are separated by single dots: a doubled dot is refused. */
  lemma RefusesDoubledDot()
    ensures !EmailShape("ab@nyu..edu")
  {
    assert "ab" + "@nyu..edu" == "ab@nyu..edu";
    assert "@nyu..edu"[1..] == "nyu" + "." + ".edu";
    AtAfterLocal("ab", "@nyu..edu");
    DomainConsLabel("nyu", ".edu");
    NotDomain(".edu", 0);
  }

  /** The domain cannot start with a dot. */
  lemma RefusesLeadingDot()
    ensures !EmailShape("ab@.edu")
  {
    assert "ab" + "@.edu" == "ab@.edu";
    assert "@.edu"[1..] == ".edu";
    AtAfterLocal("ab", "@.edu");
    NotDomain(".edu", 0);
  }

  /** The local part cannot be empty. */
  lemma RefusesEmptyLocalPart()
    ensures !EmailShape("@nyu.edu")
  {
    assert "@nyu.edu"[0] == '@';
    SplitAfterLocalRun("@nyu.edu", 0);
  }
}
