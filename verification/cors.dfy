/**
 * The allowed-origin logic of backend/src/utils/cors.ts: reading the
 * comma-separated configuration, matching an origin against `*` patterns,
 * the allow decision, and the cached pattern list.
 */
module Cors {
  import opened Wrappers

  // ----- Trimming -----

  /** The characters `String.prototype.trim` removes: white space and line terminators. */
  predicate IsJsWhitespace(c: char) {
    var n := c as int;
    || n == 0x09 || n == 0x0A || n == 0x0B || n == 0x0C || n == 0x0D || n == 0x20
    || n == 0xA0 || n == 0x1680 || (0x2000 <= n <= 0x200A) || n == 0x2028 || n == 0x2029
    || n == 0x202F || n == 0x205F || n == 0x3000 || n == 0xFEFF
  }

  /** Neither end of `s` is white space. */
  predicate IsTrimmed(s: string) {
    s == [] || (!IsJsWhitespace(s[0]) && !IsJsWhitespace(s[|s| - 1]))
  }

  /** `s` without its leading white space. */
  function TrimStart(s: string): (r: string)
    ensures |r| <= |s| && r == s[|s| - |r|..]
    ensures forall i :: 0 <= i < |s| - |r| ==> IsJsWhitespace(s[i])
    ensures r != [] ==> !IsJsWhitespace(r[0])
    decreases |s|
  {
    if s != [] && IsJsWhitespace(s[0]) then TrimStart(s[1..]) else s
  }

  /** `s` without its trailing white space. */
  function TrimEnd(s: string): (r: string)
    ensures |r| <= |s| && r == s[..|r|]
    ensures forall i :: |r| <= i < |s| ==> IsJsWhitespace(s[i])
    ensures r != [] ==> !IsJsWhitespace(r[|r| - 1])
    decreases |s|
  {
    if s != [] && IsJsWhitespace(s[|s| - 1]) then TrimEnd(s[..|s| - 1]) else s
  }

  /** `r` is `s` with `k` white-space characters removed in front and only white space removed behind. */
  ghost predicate Strips(s: string, k: int, r: string) {
    && 0 <= k <= |s| - |r|
    && r == s[k..k + |r|]
    && (forall i :: 0 <= i < k ==> IsJsWhitespace(s[i]))
    && (forall i :: k + |r| <= i < |s| ==> IsJsWhitespace(s[i]))
  }

  /** `String.prototype.trim`: the part of `s` between its leading and trailing white space. */
  function Trim(s: string): (r: string)
    ensures IsTrimmed(r)
    ensures |r| <= |s|
    ensures forall c :: c in r ==> c in s
    ensures exists k :: Strips(s, k, r)
  {
    var t := TrimStart(s);
    var r := TrimEnd(t);
    assert forall c :: c in r ==> c in t;
    assert r != [] ==> r[0] == t[0];
    StripsBoth(s, t, r);
    r
  }

  /** Removing leading white space and then trailing white space strips `s` at offset `|s| - |t|`. */
  lemma StripsBoth(s: string, t: string, r: string)
    requires |t| <= |s| && t == s[|s| - |t|..]
    requires forall i :: 0 <= i < |s| - |t| ==> IsJsWhitespace(s[i])
    requires |r| <= |t| && r == t[..|r|]
    requires forall i :: |r| <= i < |t| ==> IsJsWhitespace(t[i])
    ensures Strips(s, |s| - |t|, r)
  {
    var k := |s| - |t|;
    assert forall i :: k + |r| <= i < |s| ==> s[i] == t[i - k];
  }

  /** Trimming leaves nothing exactly when every character is white space. */
  lemma {:induction false} TrimEmptyIffBlank(s: string)
    ensures Trim(s) == [] <==> forall i :: 0 <= i < |s| ==> IsJsWhitespace(s[i])
  {
    var t := TrimStart(s);
    if t != [] {
      assert !IsJsWhitespace(s[|s| - |t|]);
      assert TrimEnd(t) != [] by {
        assert !IsJsWhitespace(t[0]);
      }
    }
  }

  // ----- Splitting on commas -----

  /** `s.split(',')`: the pieces between commas; the empty string is one empty piece. */
  function Split(s: string): (pieces: seq<string>)
    ensures |pieces| >= 1
    ensures forall p :: p in pieces ==> ',' !in p
    decreases |s|
  {
    if s == [] then [[]]
    else
      var rest := Split(s[1..]);
      if s[0] == ',' then [[]] + rest else [[s[0]] + rest[0]] + rest[1..]
  }

  /** The pieces joined back with commas between them. */
  function Join(pieces: seq<string>): string
    requires |pieces| >= 1
    decreases |pieces|
  {
    if |pieces| == 1 then pieces[0] else pieces[0] + [','] + Join(pieces[1..])
  }

  /** Joining the pieces of a split gives back the original string. */
  lemma {:induction false} JoinSplit(s: string)
    ensures Join(Split(s)) == s
    decreases |s|
  {
    if s != [] {
      JoinSplit(s[1..]);
      var rest := Split(s[1..]);
      if s[0] != ',' {
        if |rest| == 1 {
          assert Split(s) == [[s[0]] + rest[0]];
        } else {
          assert Split(s)[1..] == rest[1..];
        }
      }
    }
  }

  /** Splitting the join of comma-free pieces gives back the pieces. */
  lemma {:induction false} SplitJoin(pieces: seq<string>)
    requires |pieces| >= 1
    requires forall p :: p in pieces ==> ',' !in p
    ensures Split(Join(pieces)) == pieces
    decreases |pieces|, |pieces[0]|
  {
    var p := pieces[0];
    if p == [] {
      if |pieces| > 1 {
        SplitJoin(pieces[1..]);
        assert Join(pieces) == [','] + Join(pieces[1..]);
      }
    } else {
      var shorter := [p[1..]] + pieces[1..];
      assert p in pieces;
      assert forall c :: c in p[1..] ==> c in p;
      assert forall q :: q in pieces[1..] ==> q in pieces;
      SplitJoin(shorter);
      assert Join(pieces) == [p[0]] + Join(shorter) by {
        if |pieces| > 1 {
          assert Join(shorter) == p[1..] + [','] + Join(pieces[1..]);
        }
      }
      assert p[0] != ',' by { assert p[0] in p; }
      assert Join(pieces)[1..] == Join(shorter);
      assert [p[0]] + p[1..] == p;
      assert pieces == [p] + pieces[1..];
    }
  }

  // ----- The configured list -----

  /** Each piece trimmed, the empty ones dropped. */
  function CleanPieces(pieces: seq<string>): (r: seq<string>)
    ensures forall o :: o in r <==> o != [] && exists p :: p in pieces && o == Trim(p)
    ensures |pieces| == 1 ==> r == (if Trim(pieces[0]) == [] then [] else [Trim(pieces[0])])
    ensures |r| <= |pieces|
  {
    if pieces == [] then []
    else
      var rest := CleanPieces(pieces[1..]);
      assert forall p :: p in pieces <==> p == pieces[0] || p in pieces[1..];
      if Trim(pieces[0]) == [] then rest else [Trim(pieces[0])] + rest
  }

  /** Cleaning works piece by piece, keeping the order of the pieces and their repeats. */
  lemma {:induction false} CleanPiecesConcat(a: seq<string>, b: seq<string>)
    ensures CleanPieces(a + b) == CleanPieces(a) + CleanPieces(b)
    decreases |a|
  {
    if a != [] {
      assert (a + b)[0] == a[0];
      assert (a + b)[1..] == a[1..] + b;
      CleanPiecesConcat(a[1..], b);
    } else {
      assert a + b == b;
    }
  }

  /** `parseOrigins`: an absent or blank setting allows every origin; otherwise the trimmed, non-empty comma-separated entries. */
  function ParseOrigins(value: Option<string>): (r: seq<string>)
    ensures value.None? || Trim(value.value) == [] ==> r == ["*"]
    ensures forall o :: o in r ==> o != [] && IsTrimmed(o) && ',' !in o
  {
    if value.None? || value.value == [] || Trim(value.value) == [] then ["*"]
    else CleanPieces(Split(value.value))
  }

  /** The entries of a non-blank setting are exactly the non-empty trimmed comma-separated pieces. */
  lemma ParseOriginsEntries(v: string)
    requires Trim(v) != []
    ensures ParseOrigins(Some(v)) == CleanPieces(Split(v))
    ensures forall o :: o in ParseOrigins(Some(v)) <==> o != [] && exists p :: p in Split(v) && o == Trim(p)
  {
  }

  /** A setting made only of commas is not blank, yet yields no entry, so it allows no browser origin. */
  lemma CommasOnlyAllowNothing()
    ensures ParseOrigins(Some(",")) == []
  {
    var comma := ",";
    assert comma[1..] == [];
    assert Split(comma) == [[], []];
    assert !IsJsWhitespace(',');
    assert TrimStart(comma) == comma;
    assert TrimEnd(comma) == comma;
    assert Trim(comma) != [];
    assert Trim([]) == [];
    assert CleanPieces([[], []]) == [];
  }

  // ----- Wildcard patterns -----

  /** ASCII letters folded to lower case; other characters unchanged. */
  function Lower(c: char): char {
    if 'A' <= c <= 'Z' then (c as int + 32) as char else c
  }

  predicate SameLetter(a: char, b: char) {
    Lower(a) == Lower(b)
  }

  /** A character that is not an ASCII letter, a regex metacharacter such as `.` included, matches only itself. */
  lemma NonLetterMatchesItself(c: char, d: char)
    requires !('A' <= c <= 'Z') && !('a' <= c <= 'z')
    ensures SameLetter(c, d) <==> c == d
  {
  }

  /**
   * The pattern semantics of `wildcardToRegex`: the whole origin must match,
   * `*` stands for any substring, possibly empty, and every other character
   * stands for itself, ignoring case.
   */
  predicate GlobMatch(pattern: string, origin: string)
    ensures GlobMatch(pattern, origin) && '*' !in pattern ==> |origin| == |pattern|
    decreases |pattern| + |origin|
  {
    if pattern == [] then origin == []
    else if pattern[0] == '*' then
      GlobMatch(pattern[1..], origin) || (origin != [] && GlobMatch(pattern, origin[1..]))
    else
      assert forall c :: c in pattern[1..] ==> c in pattern;
      origin != [] && SameLetter(pattern[0], origin[0]) && GlobMatch(pattern[1..], origin[1..])
  }

  /** A leading `*` matches exactly when some suffix of the origin matches the rest of the pattern. */
  lemma {:induction false} StarMatchesAnyPrefix(rest: string, origin: string)
    ensures GlobMatch(['*'] + rest, origin) <==> exists k :: 0 <= k <= |origin| && GlobMatch(rest, origin[k..])
    decreases |origin|
  {
    var p := ['*'] + rest;
    assert p[1..] == rest;
    if origin == [] {
      assert origin[0..] == origin;
    } else {
      StarMatchesAnyPrefix(rest, origin[1..]);
      assert origin[0..] == origin;
      assert forall k :: 1 <= k <= |origin| ==> origin[k..] == origin[1..][k - 1..];
      if GlobMatch(p, origin[1..]) {
        var k :| 0 <= k <= |origin[1..]| && GlobMatch(rest, origin[1..][k..]);
        assert origin[k + 1..] == origin[1..][k..];
      }
    }
  }

  /** Without `*`, a pattern matches exactly the origins of the same length that agree letter by letter, ignoring case. */
  lemma {:induction false} LiteralPatternMatch(pattern: string, origin: string)
    requires '*' !in pattern
    ensures GlobMatch(pattern, origin) <==>
      |pattern| == |origin| && forall i :: 0 <= i < |pattern| ==> SameLetter(pattern[i], origin[i])
    decreases |pattern|
  {
    if pattern != [] && origin != [] {
      assert pattern[0] in pattern;
      assert forall c :: c in pattern[1..] ==> c in pattern;
      LiteralPatternMatch(pattern[1..], origin[1..]);
      if |pattern| == |origin| && SameLetter(pattern[0], origin[0]) {
        assert (forall i :: 0 <= i < |pattern| ==> SameLetter(pattern[i], origin[i])) <==>
               (forall i :: 0 <= i < |pattern| - 1 ==> SameLetter(pattern[1..][i], origin[1..][i]));
      }
    }
  }

  /** Matching is compositional: matched pieces of pattern and origin can be put side by side. */
  lemma {:induction false} GlobConcat(p1: string, o1: string, p2: string, o2: string)
    requires GlobMatch(p1, o1) && GlobMatch(p2, o2)
    ensures GlobMatch(p1 + p2, o1 + o2)
    decreases |p1| + |o1|
  {
    if p1 == [] {
      assert p1 + p2 == p2 && o1 + o2 == o2;
    } else if p1[0] == '*' {
      assert (p1 + p2)[1..] == p1[1..] + p2;
      if GlobMatch(p1[1..], o1) {
        GlobConcat(p1[1..], o1, p2, o2);
      } else {
        GlobConcat(p1, o1[1..], p2, o2);
        assert (o1 + o2)[1..] == o1[1..] + o2;
      }
    } else {
      GlobConcat(p1[1..], o1[1..], p2, o2);
      assert (p1 + p2)[1..] == p1[1..] + p2;
      assert (o1 + o2)[1..] == o1[1..] + o2;
    }
  }

  /** The pattern `*` matches every origin. */
  lemma {:induction false} StarMatchesEverything(origin: string)
    ensures GlobMatch("*", origin)
    decreases |origin|
  {
    if origin != [] {
      StarMatchesEverything(origin[1..]);
    }
  }

  // ----- The allow decision -----

  /** One pattern's verdict: with `*`, case-insensitive wildcard matching; without, exact and case-sensitive equality. */
  predicate PatternAllows(pattern: string, origin: string)
    ensures PatternAllows(pattern, origin) ==> GlobMatch(pattern, origin)
  {
    if '*' in pattern then GlobMatch(pattern, origin)
    else
      LiteralPatternMatch(pattern, origin);
      origin == pattern
  }

  /** An origin is allowed when it is absent or empty, when the list holds `*`, or when some pattern allows it. */
  ghost predicate Allowed(origin: Option<string>, patterns: seq<string>) {
    || origin.None?
    || origin.value == []
    || "*" in patterns
    || exists i :: 0 <= i < |patterns| && PatternAllows(patterns[i], origin.value)
  }

  /** `isAllowed`: the early returns, then the search through the patterns. */
  method IsAllowed(origin: Option<string>, patterns: seq<string>) returns (ok: bool)
    ensures ok <==> Allowed(origin, patterns)
  {
    if origin.None? || origin.value == [] {
      return true;
    }
    if "*" in patterns {
      return true;
    }
    var o := origin.value;
    for i := 0 to |patterns|
      invariant forall k :: 0 <= k < i ==> !PatternAllows(patterns[k], o)
    {
      var p := patterns[i];
      if '*' !in p && o == p {
        return true;
      }
      if '*' in p && GlobMatch(p, o) {
        return true;
      }
    }
    return false;
  }

  /** With no pattern, only a missing or empty origin is allowed. */
  lemma EmptyListAllowsOnlyNoOrigin(origin: Option<string>)
    ensures Allowed(origin, []) <==> origin.None? || origin.value == []
  {
  }

  /** The `*` entry's early return agrees with matching `*` as a pattern. */
  lemma StarEntryIsAPattern(origin: string, patterns: seq<string>)
    requires "*" in patterns
    ensures exists i :: 0 <= i < |patterns| && PatternAllows(patterns[i], origin)
  {
    var i :| 0 <= i < |patterns| && patterns[i] == "*";
    StarMatchesEverything(origin);
    assert '*' in patterns[i];
  }

  /** Case matters for a pattern without `*`: "http://a.test" refuses "HTTP://A.TEST". */
  lemma ExactPatternIsCaseSensitive()
    ensures !PatternAllows("http://a.test", "HTTP://A.TEST")
  {
    var lit, upper := "http://a.test", "HTTP://A.TEST";
    assert lit[0] != upper[0];
  }

  /** Case does not matter for a pattern with `*`: "http://a.test*" allows "HTTP://A.TEST". */
  lemma WildcardPatternIgnoresCase()
    ensures PatternAllows("http://a.test*", "HTTP://A.TEST")
  {
    var lit, upper := "http://a.test", "HTTP://A.TEST";
    LiteralPatternMatch(lit, upper);
    StarMatchesEverything([]);
    GlobConcat(lit, upper, "*", []);
    assert lit + "*" == "http://a.test*";
    assert upper + [] == upper;
    assert '*' in "http://a.test*" by { assert "http://a.test*"[13] == '*'; }
  }

  // ----- The cached list -----

  /** The module-level `cachedAllowed` list, rebuilt from the configured value on refresh. */
  class OriginCache {
    var cachedAllowed: array<string>

    /** Module load: the list parsed from the configured value. */
    constructor (config: Option<string>)
      ensures cachedAllowed[..] == ParseOrigins(config)
    {
      var parsed := ParseOrigins(config);
      cachedAllowed := new string[|parsed|](i requires 0 <= i < |parsed| => parsed[i]);
    }

    /** `refreshAllowedOrigins`: a new list parsed from the configured value, returned without copying. */
    method RefreshAllowedOrigins(config: Option<string>) returns (r: array<string>)
      modifies this
      ensures fresh(cachedAllowed) && cachedAllowed[..] == ParseOrigins(config)
      ensures r == cachedAllowed
    {
      var parsed := ParseOrigins(config);
      cachedAllowed := new string[|parsed|](i requires 0 <= i < |parsed| => parsed[i]);
      r := cachedAllowed;
    }

    /** `getAllowedOrigins`: a fresh copy of the list, so callers cannot change the cache. */
    method GetAllowedOrigins() returns (r: array<string>)
      ensures fresh(r) && r[..] == cachedAllowed[..]
    {
      var current := cachedAllowed[..];
      r := new string[|current|](i requires 0 <= i < |current| => current[i]);
    }
  }
}
