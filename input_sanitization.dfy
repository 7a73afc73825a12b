/**
 * The client's input sanitiser: `sanitizeInput` deletes `<` and `>`, then
 * every case-insensitive `javascript:`, then every case-insensitive
 * `on<word characters>=`, and trims; `sanitizeObject` applies it to the
 * string-valued own properties of an object.
 */
module InputSanitization {

  /** The JavaScript values the sanitiser can be handed; objects, arrays and functions by reference. */
  datatype JsValue =
    | JsString(s: string)
    | JsNumber(n: int)
    | JsBoolean(b: bool)
    | JsNull
    | JsUndefined
    | JsObject(ref: nat)

  // ---------------------------------------------------------------- subsequences

  /** `a` is `b` with some characters deleted. */
  predicate IsSubsequence(a: string, b: string)
    decreases |b|
  {
    if a == [] then true
    else if b == [] then false
    else (a[0] == b[0] && IsSubsequence(a[1..], b[1..])) || IsSubsequence(a, b[1..])
  }

  lemma {:induction false} SubsequenceReflexive(s: string)
    ensures IsSubsequence(s, s)
    decreases |s|
  {
    if s != [] {
      SubsequenceReflexive(s[1..]);
    }
  }

  lemma {:induction false} SubsequenceLength(a: string, b: string)
    requires IsSubsequence(a, b)
    ensures |a| <= |b|
    decreases |b|
  {
    if a != [] {
      if a[0] == b[0] && IsSubsequence(a[1..], b[1..]) {
        SubsequenceLength(a[1..], b[1..]);
      } else {
        SubsequenceLength(a, b[1..]);
      }
    }
  }

  lemma {:induction false} SubsequenceTransitive(a: string, b: string, c: string)
    requires IsSubsequence(a, b) && IsSubsequence(b, c)
    ensures IsSubsequence(a, c)
    decreases |c|
  {
    if a != [] {
      assert b != [] && c != [];
      if b[0] == c[0] && IsSubsequence(b[1..], c[1..]) {
        if a[0] == b[0] && IsSubsequence(a[1..], b[1..]) {
          SubsequenceTransitive(a[1..], b[1..], c[1..]);
        } else {
          SubsequenceTransitive(a, b[1..], c[1..]);
        }
      } else {
        SubsequenceTransitive(a, b, c[1..]);
      }
    }
  }

  /** Deleting a prefix of `b` on top of a subsequence keeps it a subsequence of `b`. */
  lemma {:induction false} SubsequenceOfSuffix(a: string, b: string, n: nat)
    requires n <= |b| && IsSubsequence(a, b[n..])
    ensures IsSubsequence(a, b)
    decreases n
  {
    if n > 0 {
      assert b[1..][n - 1..] == b[n..];
      SubsequenceOfSuffix(a, b[1..], n - 1);
      if a != [] {
        assert IsSubsequence(a, b[1..]);
      }
    }
  }

  lemma SubsequenceCons(c: char, a: string, b: string)
    requires IsSubsequence(a, b)
    ensures IsSubsequence([c] + a, [c] + b)
  {
    assert ([c] + a)[1..] == a && ([c] + b)[1..] == b;
  }

  lemma SubsequenceOfSlice(s: string, i: nat, j: nat)
    requires i <= j <= |s|
    ensures IsSubsequence(s[i..j], s)
  {
    assert s[i..j] == s[i..][..j - i];
    SubsequenceOfPrefix(s[i..j], s[i..]);
    SubsequenceOfSuffix(s[i..j], s, i);
  }

  lemma {:induction false} SubsequenceOfPrefix(p: string, s: string)
    requires |p| <= |s| && p == s[..|p|]
    ensures IsSubsequence(p, s)
    decreases |p|
  {
    if p != [] {
      assert p[1..] == s[1..][..|p| - 1];
      SubsequenceOfPrefix(p[1..], s[1..]);
    }
  }

  /** Every character of a subsequence of `b` occurs in `b`. */
  lemma {:induction false} SubsequenceChars(a: string, b: string)
    requires IsSubsequence(a, b)
    ensures forall i :: 0 <= i < |a| ==> a[i] in b
    decreases |b|
  {
    if a != [] {
      if a[0] == b[0] && IsSubsequence(a[1..], b[1..]) {
        SubsequenceChars(a[1..], b[1..]);
        assert forall i :: 1 <= i < |a| ==> a[i] == a[1..][i - 1];
      } else {
        SubsequenceChars(a, b[1..]);
      }
    }
  }

  // ---------------------------------------------------------------- the three global regex deletions

  /** The regular expressions `/[<>]/g`, `/javascript:/gi` and `/on\w+=/gi`. */
  datatype Pattern = AngleBracket | JavascriptScheme | EventHandler

  /** Case folding of `/i` without `/u`: only ASCII letters fold onto ASCII letters. */
  function AsciiLower(c: char): char
  {
    if 'A' <= c <= 'Z' then (c as int + 32) as char else c
  }

  predicate MatchesIgnoreCase(s: string, lowerPattern: string)
    requires |s| == |lowerPattern|
  {
    forall i :: 0 <= i < |s| ==> AsciiLower(s[i]) == lowerPattern[i]
  }

  /** `\w`: `[A-Za-z0-9_]`. */
  predicate IsWordChar(c: char)
  {
    ('a' <= c <= 'z') || ('A' <= c <= 'Z') || ('0' <= c <= '9') || c == '_'
  }

  /** The length of the longest run of word characters at the start of `s`. */
  function WordRun(s: string): (n: nat)
    ensures n <= |s|
    ensures forall i :: 0 <= i < n ==> IsWordChar(s[i])
    ensures n < |s| ==> !IsWordChar(s[n])
    decreases |s|
  {
    if s != [] && IsWordChar(s[0]) then 1 + WordRun(s[1..]) else 0
  }

  /** `/[<>]/` at the start of `s`: the length of the match, or 0. */
  function AngleBracketMatch(s: string): (n: nat)
    ensures n <= |s|
    ensures n > 0 <==> s != [] && (s[0] == '<' || s[0] == '>')
    ensures n > 0 ==> n == 1
  {
    if |s| >= 1 && (s[0] == '<' || s[0] == '>') then 1 else 0
  }

  /** `/javascript:/i` at the start of `s`: the length of the match, or 0. */
  function SchemeMatch(s: string): (n: nat)
    ensures n <= |s|
    ensures n > 0 <==> |s| >= 11 && MatchesIgnoreCase(s[..11], "javascript:")
    ensures n > 0 ==> n == 11
  {
    if |s| >= 11 && MatchesIgnoreCase(s[..11], "javascript:") then 11 else 0
  }

  /** `/on\w+=/i` at the start of `s`: the length of the match, or 0. */
  function HandlerMatch(s: string): (n: nat)
    ensures n <= |s|
    ensures n == 0 || n >= 4
  {
    if |s| >= 2 && MatchesIgnoreCase(s[..2], "on") then
      var k := WordRun(s[2..]);
      if k >= 1 && 2 + k < |s| && s[2 + k] == '=' then k + 3 else 0
    else 0
  }

  /** The length of the match of `p` at the very start of `s`, or 0 when it does not match there. */
  function MatchLength(p: Pattern, s: string): (n: nat)
    ensures n <= |s|
  {
    match p
    case AngleBracket => AngleBracketMatch(s)
    case JavascriptScheme => SchemeMatch(s)
    case EventHandler => HandlerMatch(s)
  }

  /** A regular expression seen from one position: the length of its match at the very start of a string, or 0. */
  function Matcher(p: Pattern): string -> nat
  {
    (t: string) => MatchLength(p, t)
  }

  /** `m` finds a non-empty match at the very start of `s`. */
  predicate MatchesAt(m: string -> nat, s: string)
  {
    0 < m(s) <= |s|
  }

  /**
   * `s.replace(re, '')` for a global regular expression `re` whose match at a
   * position `m` gives: scanning left to right, each match is deleted and the
   * search resumes after it; where nothing matches one character is kept.
   */
  function Scan(m: string -> nat, s: string): (r: string)
    ensures |r| <= |s|
    decreases |s|
  {
    if s == [] then []
    else if MatchesAt(m, s) then Scan(m, s[m(s)..])
    else [s[0]] + Scan(m, s[1..])
  }

  /** `s.replace(p, '')` for one of the three patterns. */
  function ReplaceAll(p: Pattern, s: string): (r: string)
    ensures |r| <= |s|
  {
    Scan(Matcher(p), s)
  }

  /** `m` matches nowhere in `s`. */
  predicate NoMatch(m: string -> nat, s: string)
  {
    forall j {:trigger MatchesAt(m, s[j..])} :: 0 <= j < |s| ==> !MatchesAt(m, s[j..])
  }

  /** Each deletion step only deletes characters. */
  lemma {:induction false} ScanSubsequence(m: string -> nat, s: string)
    ensures IsSubsequence(Scan(m, s), s)
    decreases |s|
  {
    if s != [] {
      if MatchesAt(m, s) {
        ScanSubsequence(m, s[m(s)..]);
        SubsequenceOfSuffix(Scan(m, s), s, m(s));
      } else {
        ScanSubsequence(m, s[1..]);
        SubsequenceCons(s[0], Scan(m, s[1..]), s[1..]);
        assert [s[0]] + s[1..] == s;
      }
    }
  }

  /** No match before position `i` of `s` means none before `i - 1` of `s[1..]`. */
  lemma NoMatchBeforeShifts(m: string -> nat, s: string, i: nat)
    requires 0 < i <= |s|
    requires forall j {:trigger MatchesAt(m, s[j..])} :: 0 <= j < i ==> !MatchesAt(m, s[j..])
    ensures forall j {:trigger MatchesAt(m, s[1..][j..])} :: 0 <= j < i - 1 ==> !MatchesAt(m, s[1..][j..])
  {
    forall j | 0 <= j < i - 1
      ensures !MatchesAt(m, s[1..][j..])
    {
      assert s[1..][j..] == s[j + 1..];
    }
  }

  /**
   * The scan agrees with the regex engine's search: if the leftmost match
   * starts at `i`, the text before it is kept, the match is deleted, and the
   * search continues right after it.
   */
  lemma {:induction false} LeftmostMatchDeleted(m: string -> nat, s: string, i: nat)
    requires i < |s| && MatchesAt(m, s[i..])
    requires forall j {:trigger MatchesAt(m, s[j..])} :: 0 <= j < i ==> !MatchesAt(m, s[j..])
    ensures Scan(m, s) == s[..i] + Scan(m, s[i + m(s[i..])..])
    decreases i
  {
    var n := m(s[i..]);
    if i == 0 {
      MatchAtStartDeleted(m, s);
    } else {
      var t := s[1..];
      assert Scan(m, t) == t[..i - 1] + Scan(m, t[i - 1 + n..]) by {
        NoMatchBeforeShifts(m, s, i);
        assert t[i - 1..] == s[i..];
        LeftmostMatchDeleted(m, t, i - 1);
        assert m(t[i - 1..]) == n;
      }
      KeptHeadJoins(m, s, i, n);
    }
  }

  /** The base case of `LeftmostMatchDeleted`: a match at position 0 is deleted. */
  lemma MatchAtStartDeleted(m: string -> nat, s: string)
    requires s != [] && MatchesAt(m, s[0..])
    ensures Scan(m, s) == s[..0] + Scan(m, s[m(s[0..])..])
  {
    assert s[0..] == s;
    assert s[..0] == [];
  }

  /** The step of `LeftmostMatchDeleted`: a kept first character joins the scan of the rest. */
  lemma KeptHeadJoins(m: string -> nat, s: string, i: nat, n: nat)
    requires 0 < i && i + n <= |s|
    requires !MatchesAt(m, s[0..])
    requires Scan(m, s[1..]) == s[1..][..i - 1] + Scan(m, s[1..][i - 1 + n..])
    ensures Scan(m, s) == s[..i] + Scan(m, s[i + n..])
  {
    assert s[0..] == s;
    assert s[1..][i - 1 + n..] == s[i + n..];
    ScanKeepsHead(m, s);
    HeadJoinsPrefix(s, i, Scan(m, s[i + n..]));
  }

  /** Putting back the first character of `s` in front of the rest's prefix gives the prefix of `s`. */
  lemma HeadJoinsPrefix(s: string, i: nat, r: string)
    requires 0 < i <= |s|
    ensures [s[0]] + (s[1..][..i - 1] + r) == s[..i] + r
  {
    assert [s[0]] + s[1..][..i - 1] == s[..i];
  }

  /** Where `m` does not match at the start, the scan keeps the first character. */
  lemma ScanKeepsHead(m: string -> nat, s: string)
    requires s != [] && !MatchesAt(m, s)
    ensures Scan(m, s) == [s[0]] + Scan(m, s[1..])
  {
  }

  /** A match anywhere makes the result strictly shorter. */
  lemma {:induction false} ScanShrinks(m: string -> nat, s: string, j: nat)
    requires j < |s| && MatchesAt(m, s[j..])
    ensures |Scan(m, s)| < |s|
    decreases j
  {
    if MatchesAt(m, s) {
      ScanSubsequence(m, s[m(s)..]);
      SubsequenceLength(Scan(m, s[m(s)..]), s[m(s)..]);
    } else {
      assert j > 0 by { assert s[0..] == s; }
      assert s[1..][j - 1..] == s[j..];
      ScanShrinks(m, s[1..], j - 1);
    }
  }

  /** A deletion step leaves its input unchanged exactly when its pattern matches nowhere in it. */
  lemma {:induction false} ScanUnchangedIffNoMatch(m: string -> nat, s: string)
    ensures Scan(m, s) == s <==> NoMatch(m, s)
    decreases |s|
  {
    if NoMatch(m, s) {
      if s != [] {
        assert !MatchesAt(m, s[0..]) && s[0..] == s;
        forall j | 0 <= j < |s| - 1
          ensures !MatchesAt(m, s[1..][j..])
        {
          assert s[1..][j..] == s[j + 1..];
        }
        ScanUnchangedIffNoMatch(m, s[1..]);
        assert [s[0]] + s[1..] == s;
      }
    } else {
      var j :| 0 <= j < |s| && MatchesAt(m, s[j..]);
      ScanShrinks(m, s, j);
    }
  }

  predicate NoAngleBrackets(s: string)
  {
    forall i :: 0 <= i < |s| ==> s[i] != '<' && s[i] != '>'
  }

  /** The first step leaves no angle bracket behind. */
  lemma {:induction false} AngleBracketsGone(s: string)
    ensures NoAngleBrackets(ReplaceAll(AngleBracket, s))
    decreases |s|
  {
    if s != [] {
      var m := Matcher(AngleBracket);
      if MatchesAt(m, s) {
        AngleBracketsGone(s[m(s)..]);
      } else {
        AngleBracketsGone(s[1..]);
        var r := ReplaceAll(AngleBracket, s[1..]);
        assert forall i :: 1 <= i < |[s[0]] + r| ==> ([s[0]] + r)[i] == r[i - 1];
      }
    }
  }

  /** Deleting characters cannot bring an angle bracket back. */
  lemma SubsequenceKeepsNoAngleBrackets(a: string, b: string)
    requires IsSubsequence(a, b) && NoAngleBrackets(b)
    ensures NoAngleBrackets(a)
  {
    SubsequenceChars(a, b);
  }

  predicate AllWordChars(s: string)
  {
    forall i :: 0 <= i < |s| ==> IsWordChar(s[i])
  }

  /**
   * `/on\w+=/i` matches at the start of `s` with exactly `k` word characters
   * between `on` and `=` when, and only when, `s` begins with a case-insensitive
   * `on`, then `k >= 1` word characters, then `=`. Since `=` is not a word
   * character, `k` is the whole run of word characters after `on`, so the
   * greedy `\w+` never needs to give any back.
   */
  lemma EventHandlerMatch(s: string, k: nat)
    ensures MatchLength(EventHandler, s) == k + 3 <==>
      (&& k >= 1 && k + 3 <= |s|
       && MatchesIgnoreCase(s[..2], "on")
       && AllWordChars(s[2..2 + k])
       && s[2 + k] == '=')
  {
    if k >= 1 && k + 3 <= |s| && MatchesIgnoreCase(s[..2], "on") && AllWordChars(s[2..2 + k]) && s[2 + k] == '=' {
      var run := WordRun(s[2..]);
      assert forall i :: 0 <= i < k ==> IsWordChar(s[2..][i]) by {
        forall i | 0 <= i < k ensures IsWordChar(s[2..][i]) {
          assert s[2..][i] == s[2..2 + k][i];
        }
      }
      assert !IsWordChar(s[2..][k]);
      assert run == k;
    }
    if MatchLength(EventHandler, s) == k + 3 {
      var run := WordRun(s[2..]);
      assert run == k;
      assert forall i :: 0 <= i < k ==> s[2..2 + k][i] == s[2..][i];
    }
  }

  // ---------------------------------------------------------------- trim

  /** ECMAScript's WhiteSpace and LineTerminator characters, which `String.prototype.trim` removes. */
  predicate IsJsWhitespace(c: char)
  {
    || c == '\t' || c == '\n' || c == '\U{000B}' || c == '\U{000C}' || c == '\r' || c == ' '
    || c == '\U{00A0}' || c == '\U{1680}' || ('\U{2000}' <= c <= '\U{200A}')
    || c == '\U{2028}' || c == '\U{2029}' || c == '\U{202F}' || c == '\U{205F}'
    || c == '\U{3000}' || c == '\U{FEFF}'
  }

  /** `s` neither starts nor ends with whitespace. */
  predicate NotPadded(s: string)
  {
    s == [] || (!IsJsWhitespace(s[0]) && !IsJsWhitespace(s[|s| - 1]))
  }

  /** The number of whitespace characters `s` starts with. */
  function LeadingWhitespace(s: string): (n: nat)
    ensures n <= |s|
    ensures forall i :: 0 <= i < n ==> IsJsWhitespace(s[i])
    ensures n < |s| ==> !IsJsWhitespace(s[n])
    decreases |s|
  {
    if s != [] && IsJsWhitespace(s[0]) then 1 + LeadingWhitespace(s[1..]) else 0
  }

  /** The number of whitespace characters `s` ends with. */
  function TrailingWhitespace(s: string): (n: nat)
    ensures n <= |s|
    ensures forall i :: |s| - n <= i < |s| ==> IsJsWhitespace(s[i])
    ensures n < |s| ==> !IsJsWhitespace(s[|s| - 1 - n])
    decreases |s|
  {
    if s != [] && IsJsWhitespace(s[|s| - 1]) then 1 + TrailingWhitespace(s[..|s| - 1]) else 0
  }

  /**
   * `s.trim()`: the result is the part of `s` after its leading whitespace
   * and before its trailing whitespace, and is itself not padded.
   */
  function Trim(s: string): (r: string)
    ensures NotPadded(r)
    ensures LeadingWhitespace(s) + |r| <= |s|
    ensures r == s[LeadingWhitespace(s)..LeadingWhitespace(s) + |r|]
    ensures forall i :: 0 <= i < LeadingWhitespace(s) ==> IsJsWhitespace(s[i])
    ensures forall i :: LeadingWhitespace(s) + |r| <= i < |s| ==> IsJsWhitespace(s[i])
  {
    var start := LeadingWhitespace(s);
    var rest := s[start..];
    var trailing := TrailingWhitespace(rest);
    var r := rest[..|rest| - trailing];
    assert r != [] ==> r[0] == s[start] && r[|r| - 1] == rest[|rest| - 1 - trailing];
    assert forall i :: start + |r| <= i < |s| ==> s[i] == rest[i - start];
    r
  }

  /** Trimming only deletes characters. */
  lemma TrimSubsequence(s: string)
    ensures IsSubsequence(Trim(s), s)
  {
    var r := Trim(s);
    SubsequenceOfSlice(s, LeadingWhitespace(s), LeadingWhitespace(s) + |r|);
  }

  // ---------------------------------------------------------------- sanitizeInput / sanitizeObject

  /**
   * The string case of `sanitizeInput`. Its result holds no `<` or `>`, has no
   * leading or trailing whitespace, and is a subsequence of the input.
   */
  function SanitizeString(s: string): (r: string)
    ensures NoAngleBrackets(r)
    ensures NotPadded(r)
    ensures IsSubsequence(r, s) && |r| <= |s|
  {
    var noAngles := ReplaceAll(AngleBracket, s);
    var noScheme := ReplaceAll(JavascriptScheme, noAngles);
    var noHandlers := ReplaceAll(EventHandler, noScheme);
    var r := Trim(noHandlers);
    AngleBracketsGone(s);
    ScanSubsequence(Matcher(AngleBracket), s);
    ScanSubsequence(Matcher(JavascriptScheme), noAngles);
    ScanSubsequence(Matcher(EventHandler), noScheme);
    TrimSubsequence(noHandlers);
    SubsequenceTransitive(r, noHandlers, noScheme);
    SubsequenceTransitive(r, noScheme, noAngles);
    SubsequenceTransitive(r, noAngles, s);
    SubsequenceKeepsNoAngleBrackets(r, noAngles);
    SubsequenceLength(r, s);
    r
  }

  /** `sanitizeInput`: strings are sanitised, every other value comes back as it is. */
  function SanitizeInput(input: JsValue): (r: JsValue)
    ensures !input.JsString? ==> r == input
    ensures input.JsString? ==> r.JsString? && r.s == SanitizeString(input.s)
  {
    match input
    case JsString(s) => JsString(SanitizeString(s))
    case _ => input
  }

  /**
   * The one key an assignment `sanitized[key] = v` does not create as an own
   * property: on a fresh object it invokes the `__proto__` accessor that the
   * object inherits from `Object.prototype`.
   */
  const ProtoKey: string := "__proto__"

  /**
   * `sanitizeObject`: the `for...in` loop visits the own and the inherited
   * enumerable keys, and `hasOwnProperty` keeps only the own ones. The result
   * has exactly the own keys other than `__proto__`; string values are
   * sanitised and the others are kept as they are.
   */
  method SanitizeObject(own: map<string, JsValue>, inherited: set<string>) returns (sanitized: map<string, JsValue>)
    ensures sanitized.Keys == own.Keys - {ProtoKey}
    ensures forall key :: key in sanitized && own[key].JsString? ==> sanitized[key] == JsString(SanitizeString(own[key].s))
    ensures forall key :: key in sanitized && !own[key].JsString? ==> sanitized[key] == own[key]
  {
    sanitized := map[];
    var pending := own.Keys + inherited;
    while pending != {}
      invariant sanitized.Keys == own.Keys - {ProtoKey} - pending
      invariant forall key :: key in sanitized && own[key].JsString? ==> sanitized[key] == JsString(SanitizeString(own[key].s))
      invariant forall key :: key in sanitized && !own[key].JsString? ==> sanitized[key] == own[key]
      decreases pending
    {
      var key :| key in pending;
      if key in own && key != ProtoKey {
        sanitized := sanitized[key := if own[key].JsString? then SanitizeInput(own[key]) else own[key]];
      }
      pending := pending - {key};
    }
  }

  lemma NoAngleBracketsNoMatch(s: string)
    requires NoAngleBrackets(s)
    ensures NoMatch(Matcher(AngleBracket), s)
  {
    assert forall j :: 0 <= j < |s| ==> s[j..][0] == s[j];
  }

  lemma NoLetterONoMatch(s: string)
    requires forall i :: 0 <= i < |s| ==> AsciiLower(s[i]) != 'o'
    ensures NoMatch(Matcher(EventHandler), s)
  {
    forall j | 0 <= j < |s| ensures MatchLength(EventHandler, s[j..]) == 0 {
      if |s[j..]| >= 2 {
        assert s[j..][..2][0] == s[j];
      }
    }
  }

  lemma TrimUnpadded(s: string)
    requires NotPadded(s)
    ensures Trim(s) == s
  {
    if s != [] {
      assert LeadingWhitespace(s) == 0;
      assert TrailingWhitespace(s) == 0;
    }
  }

  /** `/javascript:/i` needs eleven characters, so it matches nowhere in a shorter string. */
  lemma ShortHasNoScheme(s: string)
    requires |s| < 11
    ensures ReplaceAll(JavascriptScheme, s) == s
  {
    assert forall j :: 0 <= j < |s| ==> MatchLength(JavascriptScheme, s[j..]) == 0;
    ScanUnchangedIffNoMatch(Matcher(JavascriptScheme), s);
  }

  /** In `oonb=na=` the handler pattern fails at position 0 and matches `onb=` at position 1. */
  lemma LeftmostHandlerAtOne(x: string)
    requires x == "oonb=na="
    ensures MatchLength(EventHandler, x[0..]) == 0
    ensures MatchLength(EventHandler, x[1..]) == 4
  {
    assert !MatchesIgnoreCase(x[0..][..2], "on") by { assert x[0..][..2][1] == 'o'; }
    assert x[1..][..2] == "on";
    assert x[1..][2..] == "b=na=";
    assert WordRun("b=na=") == 1;
  }

  /** `na=` holds no `o`, so the handler step keeps it. */
  lemma HandlerStepKeepsTail()
    ensures ReplaceAll(EventHandler, "na=") == "na="
  {
    var z := "na=";
    assert AsciiLower(z[0]) != 'o' && AsciiLower(z[1]) != 'o' && AsciiLower(z[2]) != 'o';
    NoLetterONoMatch(z);
    ScanUnchangedIffNoMatch(Matcher(EventHandler), z);
  }

  /** A first character that starts no match, followed by a match, is all that survives of them. */
  lemma KeptHeadThenMatch(m: string -> nat, s: string, rest: string)
    requires s != [] && !MatchesAt(m, s) && MatchesAt(m, s[1..])
    requires Scan(m, s[1..][m(s[1..])..]) == rest
    ensures Scan(m, s) == [s[0]] + rest
  {
  }

  /**
   * The handler step on `oonb=na=`: the leftmost match is `onb=` at position
   * 1, and deleting it joins `o` and `na=` into a new handler attribute.
   */
  lemma HandlerStepJoinsHalves(x: string)
    requires x == "oonb=na="
    ensures ReplaceAll(EventHandler, x) == "ona="
  {
    assert x[0..] == x;
    assert x[1..][4..] == "na=";
    assert [x[0]] + "na=" == "ona=";
    LeftmostHandlerAtOne(x);
    HandlerStepKeepsTail();
    KeptHeadThenMatch(Matcher(EventHandler), x, "na=");
  }

  /** The handler step deletes all of `ona=`. */
  lemma HandlerStepDeletesJoined(y: string)
    requires y == "ona="
    ensures ReplaceAll(EventHandler, y) == ""
  {
    assert y[..2] == "on";
    assert y[2..] == "a=";
    assert WordRun("a=") == 1;
    assert MatchLength(EventHandler, y) == 4;
    WholeMatchDeleted(Matcher(EventHandler), y);
  }

  /** A match that covers all of `s` leaves nothing. */
  lemma WholeMatchDeleted(m: string -> nat, s: string)
    requires MatchesAt(m, s) && m(s) == |s|
    ensures Scan(m, s) == []
  {
    assert s[|s|..] == [];
  }

  /** When only the handler step changes `s`, and leaves no padding, sanitising gives that step's result. */
  lemma OnlyHandlerStepChanges(s: string, r: string)
    requires ReplaceAll(AngleBracket, s) == s && ReplaceAll(JavascriptScheme, s) == s
    requires ReplaceAll(EventHandler, s) == r && NotPadded(r)
    ensures SanitizeString(s) == r
  {
    TrimUnpadded(r);
  }

  /** The first pass over `oonb=na=`: only the handler step changes it, into `ona=`. */
  lemma FirstPassJoins(x: string)
    requires x == "oonb=na="
    ensures SanitizeString(x) == "ona="
  {
    assert NoAngleBrackets(x);
    assert NotPadded("ona=");
    NoAngleBracketsNoMatch(x);
    ScanUnchangedIffNoMatch(Matcher(AngleBracket), x);
    ShortHasNoScheme(x);
    HandlerStepJoinsHalves(x);
    OnlyHandlerStepChanges(x, "ona=");
  }

  /** The second pass over `ona=`: the handler step deletes all of it. */
  lemma SecondPassDeletes(y: string)
    requires y == "ona="
    ensures SanitizeString(y) == ""
  {
    assert NoAngleBrackets(y);
    NoAngleBracketsNoMatch(y);
    ScanUnchangedIffNoMatch(Matcher(AngleBracket), y);
    ShortHasNoScheme(y);
    HandlerStepDeletesJoined(y);
    OnlyHandlerStepChanges(y, "");
  }

  /** `s` does not begin with a case-insensitive `javascript:` when its character at `k` differs from the pattern's. */
  lemma SchemeMismatchAt(s: string, k: nat)
    requires k < 11 && (|s| < 11 || AsciiLower(s[k]) != "javascript:"[k])
    ensures MatchLength(JavascriptScheme, s) == 0
  {
    if |s| >= 11 {
      assert s[..11][k] == s[k];
    }
  }

  /** `javajavascript:script:` starts no scheme at positions 0 to 3. */
  lemma NoSchemeBeforeFour(x: string)
    requires x == "javajavascript:script:"
    ensures MatchLength(JavascriptScheme, x[0..]) == 0
    ensures MatchLength(JavascriptScheme, x[1..]) == 0
    ensures MatchLength(JavascriptScheme, x[2..]) == 0
    ensures MatchLength(JavascriptScheme, x[3..]) == 0
  {
    assert x[0..][4] == 'j' && x[1..][0] == 'a' && x[2..][0] == 'v' && x[3..][0] == 'a';
    SchemeMismatchAt(x[0..], 4);
    SchemeMismatchAt(x[1..], 0);
    SchemeMismatchAt(x[2..], 0);
    SchemeMismatchAt(x[3..], 0);
  }

  /** In `javajavascript:script:` the scheme pattern matches at position 4. */
  lemma SchemeAtFour(x: string)
    requires x == "javajavascript:script:"
    ensures MatchLength(JavascriptScheme, x[4..]) == 11
  {
    assert x[4..][..11] == "javascript:";
  }

  /**
   * The scheme step on `javajavascript:script:`: deleting the inner
   * `javascript:` joins `java` and `script:` into a new one.
   */
  lemma SchemeStepJoinsHalves(x: string)
    requires x == "javajavascript:script:"
    ensures ReplaceAll(JavascriptScheme, x) == "javascript:"
  {
    var m := Matcher(JavascriptScheme);
    NoSchemeBeforeFour(x);
    assert forall j :: 0 <= j < 4 ==> !MatchesAt(m, x[j..]) by {
      forall j | 0 <= j < 4
        ensures !MatchesAt(m, x[j..])
      {
        assert j == 0 || j == 1 || j == 2 || j == 3;
      }
    }
    SchemeAtFour(x);
    SchemeHalves(x);
    OnlyMatchDeleted(m, x, 4);
  }

  /** `javajavascript:script:` has the halves `java` and `script:` around its inner match, and they join into `javascript:`. */
  lemma SchemeHalves(x: string)
    requires x == "javajavascript:script:"
    ensures ReplaceAll(JavascriptScheme, x[15..]) == x[15..]
    ensures x[..4] + x[15..] == "javascript:"
  {
    assert |x[15..]| < 11;
    ShortHasNoScheme(x[15..]);
  }

  /** When the leftmost match is at `i` and the rest after it holds no match, only that match is deleted. */
  lemma OnlyMatchDeleted(m: string -> nat, s: string, i: nat)
    requires i < |s| && MatchesAt(m, s[i..])
    requires forall j {:trigger MatchesAt(m, s[j..])} :: 0 <= j < i ==> !MatchesAt(m, s[j..])
    requires Scan(m, s[i + m(s[i..])..]) == s[i + m(s[i..])..]
    ensures Scan(m, s) == s[..i] + s[i + m(s[i..])..]
  {
    LeftmostMatchDeleted(m, s, i);
  }

  /** The scheme step deletes all of `javascript:`. */
  lemma SchemeStepDeletesJoined(y: string)
    requires y == "javascript:"
    ensures ReplaceAll(JavascriptScheme, y) == ""
  {
    assert y[..11] == y;
    assert MatchLength(JavascriptScheme, y) == 11;
    WholeMatchDeleted(Matcher(JavascriptScheme), y);
  }

  /** When only the scheme step changes `s`, and leaves no handler and no padding, sanitising gives that step's result. */
  lemma OnlySchemeStepChanges(s: string, r: string)
    requires ReplaceAll(AngleBracket, s) == s && ReplaceAll(JavascriptScheme, s) == r
    requires ReplaceAll(EventHandler, r) == r && NotPadded(r)
    ensures SanitizeString(s) == r
  {
    TrimUnpadded(r);
  }

  /** The first pass over `javajavascript:script:`: only the scheme step changes it, into `javascript:`. */
  lemma FirstPassExposesScheme(x: string)
    requires x == "javajavascript:script:"
    ensures SanitizeString(x) == "javascript:"
  {
    var y := "javascript:";
    assert NoAngleBrackets(x);
    assert NotPadded(y);
    assert forall i :: 0 <= i < |y| ==> AsciiLower(y[i]) != 'o';
    NoAngleBracketsNoMatch(x);
    ScanUnchangedIffNoMatch(Matcher(AngleBracket), x);
    SchemeStepJoinsHalves(x);
    NoLetterONoMatch(y);
    ScanUnchangedIffNoMatch(Matcher(EventHandler), y);
    OnlySchemeStepChanges(x, y);
  }

  /** The second pass over `javascript:`: the scheme step deletes all of it. */
  lemma SecondPassDeletesScheme(y: string)
    requires y == "javascript:"
    ensures SanitizeString(y) == ""
  {
    assert NoAngleBrackets(y);
    NoAngleBracketsNoMatch(y);
    ScanUnchangedIffNoMatch(Matcher(AngleBracket), y);
    SchemeStepDeletesJoined(y);
    OnlySchemeStepChanges(y, "");
  }

  /**
   * Sanitising is not idempotent: deleting the inner `javascript:` of
   * `javajavascript:script:` exposes a new one, which only a second pass
   * deletes.
   */
  lemma SanitizeNotIdempotent()
    ensures SanitizeString("javajavascript:script:") == "javascript:"
    ensures SanitizeString(SanitizeString("javajavascript:script:")) == ""
  {
    FirstPassExposesScheme("javajavascript:script:");
    SecondPassDeletesScheme("javascript:");
  }

  /**
   * The handler step is not idempotent either: deleting the inner `onb=` of
   * `oonb=na=` joins its halves into a new `ona=`.
   */
  lemma HandlerDeletionNotIdempotent()
    ensures SanitizeString("oonb=na=") == "ona="
    ensures SanitizeString(SanitizeString("oonb=na=")) == ""
  {
    FirstPassJoins("oonb=na=");
    SecondPassDeletes("ona=");
  }
}
