/** The JavaScript string built-ins the validators rely on: `String.prototype.trim`,
    `String.prototype.toLowerCase` (on ASCII letters) and the character classes
    `[0-9]` / `\d` of the validators' regular expressions. */
module JsText {

  /** The characters `trim` removes: ECMAScript's WhiteSpace (tab, vertical tab, form feed,
      space, no-break space, byte order mark and the Zs space separators) and
      its LineTerminators (line feed, carriage return, line and paragraph separator). */
  predicate IsWhitespace(c: char) {
    || c == '\t' || c == '\U{B}' || c == '\U{C}' || c == ' ' || c == '\U{A0}' || c == '\U{FEFF}'
    || c == '\U{1680}' || ('\U{2000}' <= c <= '\U{200A}') || c == '\U{202F}' || c == '\U{205F}'
    || c == '\U{3000}'
    || c == '\n' || c == '\r' || c == '\U{2028}' || c == '\U{2029}'
  }

  predicate AllWhitespace(s: string) {
    forall i :: 0 <= i < |s| ==> IsWhitespace(s[i])
  }

  /** Neither the first nor the last character is whitespace (vacuous for the empty string). */
  predicate NoEdgeWhitespace(t: string) {
    t == [] || (!IsWhitespace(t[0]) && !IsWhitespace(t[|t| - 1]))
  }

  /** Every character of `s` at an index in `[lo, hi)` is whitespace. */
  predicate WhitespaceBetween(s: string, lo: int, hi: int)
    requires 0 <= lo && hi <= |s|
  {
    forall k :: lo <= k < hi ==> IsWhitespace(s[k])
  }

  /** Strips leading whitespace: what remains is a suffix of `s`, the part removed is all
      whitespace, and what remains does not start with whitespace. */
  function TrimStart(s: string): (r: string)
    ensures |r| <= |s| && r == s[|s| - |r|..]
    ensures WhitespaceBetween(s, 0, |s| - |r|)
    ensures r == [] || !IsWhitespace(r[0])
  {
    if s != [] && IsWhitespace(s[0]) then
      var r := TrimStart(s[1..]);
      r
    else
      s
  }

  /** Strips trailing whitespace: what remains is a prefix of `s`, the part removed is all
      whitespace, and what remains does not end with whitespace. */
  function TrimEnd(s: string): (r: string)
    ensures |r| <= |s| && r == s[..|r|]
    ensures WhitespaceBetween(s, |r|, |s|)
    ensures r == [] || !IsWhitespace(r[|r| - 1])
  {
    if s != [] && IsWhitespace(s[|s| - 1]) then
      var r := TrimEnd(s[..|s| - 1]);
      r
    else
      s
  }

  /** `t` sits at offset `i` of `s`, with only whitespace before and after it, and `t`
      itself neither starts nor ends with whitespace. */
  predicate TrimmedAt(s: string, t: string, i: int) {
    && 0 <= i && i + |t| <= |s|
    && t == s[i..i + |t|]
    && WhitespaceBetween(s, 0, i)
    && WhitespaceBetween(s, i + |t|, |s|)
    && NoEdgeWhitespace(t)
  }

  /** The declarative meaning of trimming: `t` is `s` with whitespace removed from both ends. */
  ghost predicate IsTrimOf(s: string, t: string) {
    exists i :: TrimmedAt(s, t, i)
  }

  /** A suffix `u` of `s` after leading whitespace, cut down to a prefix `r` before trailing
      whitespace, is the core of a trimmed decomposition of `s`. */
  lemma PrefixOfSuffixTrimmed(s: string, u: string, r: string)
    requires |u| <= |s| && u == s[|s| - |u|..] && WhitespaceBetween(s, 0, |s| - |u|)
    requires u == [] || !IsWhitespace(u[0])
    requires |r| <= |u| && r == u[..|r|] && WhitespaceBetween(u, |r|, |u|)
    requires r == [] || !IsWhitespace(r[|r| - 1])
    ensures TrimmedAt(s, r, |s| - |u|)
  {
    var off := |s| - |u|;
    assert r == s[off..off + |r|];
    assert NoEdgeWhitespace(r) by {
      assert r == [] || r[0] == u[0];
    }
    forall k | off + |r| <= k < |s| ensures IsWhitespace(s[k]) {
      assert s[k] == u[k - off];
    }
  }

  /** Stripping the start and then the end leaves the core of a trimmed decomposition. */
  lemma TrimStartEnd(s: string)
    ensures TrimmedAt(s, TrimEnd(TrimStart(s)), |s| - |TrimStart(s)|)
  {
    var u := TrimStart(s);
    PrefixOfSuffixTrimmed(s, u, TrimEnd(u));
  }

  /** `String.prototype.trim`. */
  function Trim(s: string): (r: string)
    ensures IsTrimOf(s, r)
    ensures NoEdgeWhitespace(r)
  {
    TrimStartEnd(s);
    TrimEnd(TrimStart(s))
  }

  /** The core of a trimmed decomposition is empty exactly when `s` is all whitespace. */
  lemma CoreEmptyIff(s: string, t: string, i: int)
    requires TrimmedAt(s, t, i)
    ensures t == [] <==> AllWhitespace(s)
  {
    if t == [] {
      assert forall k :: 0 <= k < |s| ==> IsWhitespace(s[k]);
    } else {
      assert s[i] == t[0];
    }
  }

  /** A non-empty core cannot start later than another one (the text before it is whitespace). */
  lemma CoreStartsFirst(s: string, t1: string, i1: int, t2: string, i2: int)
    requires TrimmedAt(s, t1, i1) && TrimmedAt(s, t2, i2) && t1 != [] && t2 != []
    ensures i1 <= i2
  {
    assert s[i2] == t2[0];
  }

  /** A non-empty core cannot end earlier than another one (the text after it is whitespace). */
  lemma CoreEndsLast(s: string, t1: string, i1: int, t2: string, i2: int)
    requires TrimmedAt(s, t1, i1) && TrimmedAt(s, t2, i2) && t1 != [] && t2 != []
    ensures i2 + |t2| <= i1 + |t1|
  {
    assert s[i2 + |t2| - 1] == t2[|t2| - 1];
  }

  /** Two trimmed decompositions of the same string have the same core. */
  lemma TrimmedAtUnique(s: string, t1: string, i1: int, t2: string, i2: int)
    requires TrimmedAt(s, t1, i1) && TrimmedAt(s, t2, i2)
    ensures t1 == t2
  {
    CoreEmptyIff(s, t1, i1);
    CoreEmptyIff(s, t2, i2);
    if t1 != [] && t2 != [] {
      CoreStartsFirst(s, t1, i1, t2, i2);
      CoreStartsFirst(s, t2, i2, t1, i1);
      CoreEndsLast(s, t1, i1, t2, i2);
      CoreEndsLast(s, t2, i2, t1, i1);
    }
  }

  /** `Trim` is the only function meeting the declarative meaning. */
  lemma TrimUnique(s: string, t: string)
    requires IsTrimOf(s, t)
    ensures t == Trim(s)
  {
    var i :| TrimmedAt(s, t, i);
    var j :| TrimmedAt(s, Trim(s), j);
    TrimmedAtUnique(s, t, i, Trim(s), j);
  }

  /** Trimming a trimmed string changes nothing. */
  lemma TrimIdempotent(s: string)
    ensures Trim(Trim(s)) == Trim(s)
  {
    var t := Trim(s);
    var i :| TrimmedAt(s, t, i);
    assert TrimmedAt(t, t, 0);
    TrimUnique(t, t);
  }

  /** A string trims to the empty string exactly when it is all whitespace. */
  lemma TrimEmptyIff(s: string)
    ensures Trim(s) == [] <==> AllWhitespace(s)
  {
    var i :| TrimmedAt(s, Trim(s), i);
    CoreEmptyIff(s, Trim(s), i);
  }

  predicate IsAsciiUpper(c: char) { 'A' <= c <= 'Z' }

  predicate IsAsciiLower(c: char) { 'a' <= c <= 'z' }

  predicate IsDigit(c: char) { '0' <= c <= '9' }

  predicate HasAsciiUpper(s: string) { exists i :: 0 <= i < |s| && IsAsciiUpper(s[i]) }

  /** The regular expressions `/[0-9]/` and `/\d/` match somewhere in `s`. */
  predicate HasDigit(s: string) { exists i :: 0 <= i < |s| && IsDigit(s[i]) }

  function LowerChar(c: char): char {
    if IsAsciiUpper(c) then (c as int + 32) as char else c
  }

  /** `String.prototype.toLowerCase`, restricted to the ASCII letters. */
  function ToLower(s: string): (r: string)
    ensures |r| == |s|
  {
    seq(|s|, i requires 0 <= i < |s| => LowerChar(s[i]))
  }

  /** Lower-casing leaves a string unchanged exactly when it has no upper-case letter. */
  lemma ToLowerUnchangedIff(s: string)
    ensures ToLower(s) == s <==> !HasAsciiUpper(s)
  {
    if HasAsciiUpper(s) {
      var i :| 0 <= i < |s| && IsAsciiUpper(s[i]);
      assert ToLower(s)[i] != s[i];
    } else {
      assert forall i :: 0 <= i < |s| ==> ToLower(s)[i] == s[i];
    }
  }
}
