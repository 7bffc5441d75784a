/**
  The pieces of Rust's string library that the daemon's parsers rely on, stated
  over `seq<char>`: `Option`, the `u32` range, `char::is_whitespace`, `str::trim`
  and `trim_matches`, `strip_prefix`, `split`, `split_whitespace`, `contains`,
  `rfind`-style search and `parse::<u32>`.
 */
module Text {

  datatype Option<+T> = None | Some(value: T)

  /** The values of Rust's `u32`. */
  const U32_LIMIT: int := 0x1_0000_0000
  type U32 = n: int | 0 <= n < 0x1_0000_0000

  /** Rust's `char::is_whitespace`: the Unicode White_Space property. */
  predicate IsWhitespace(c: char) {
    if c <= ' ' then c == ' ' || '\t' <= c <= '\r'
    else if c < '\U{85}' then false
    else
      || c == '\U{85}' || c == '\U{A0}' || c == '\U{1680}'
      || ('\U{2000}' <= c <= '\U{200A}')
      || c == '\U{2028}' || c == '\U{2029}' || c == '\U{202F}' || c == '\U{205F}' || c == '\U{3000}'
  }

  predicate NotWhitespace(c: char) {
    !IsWhitespace(c)
  }

  predicate AllSatisfy(s: string, p: char -> bool) {
    forall i :: 0 <= i < |s| ==> p(s[i])
  }

  // ---------------------------------------------------------------------------
  // Trimming

  /** The number of leading characters satisfying `p`. */
  function LeadingCount(s: string, p: char -> bool): (n: nat)
    ensures n <= |s|
    ensures forall i :: 0 <= i < n ==> p(s[i])
    ensures n < |s| ==> !p(s[n])
    decreases |s|
  {
    if s != [] && p(s[0]) then 1 + LeadingCount(s[1..], p) else 0
  }

  /** The number of trailing characters satisfying `p`. */
  function TrailingCount(s: string, p: char -> bool): (n: nat)
    ensures n <= |s|
    ensures forall i :: |s| - n <= i < |s| ==> p(s[i])
    ensures n < |s| ==> !p(s[|s| - n - 1])
    decreases |s|
  {
    if s != [] && p(s[|s| - 1]) then 1 + TrailingCount(s[..|s| - 1], p) else 0
  }

  /** Drops every leading character satisfying `p` (`trim_start_matches`). */
  function TrimStartWhile(s: string, p: char -> bool): string {
    s[LeadingCount(s, p)..]
  }

  /** Drops every trailing character satisfying `p` (`trim_end_matches`). */
  function TrimEndWhile(s: string, p: char -> bool): string {
    s[..|s| - TrailingCount(s, p)]
  }

  /** Drops leading and trailing characters satisfying `p` (`trim_matches`). */
  function TrimWhile(s: string, p: char -> bool): (r: string)
    ensures |r| <= |s|
    ensures r != [] ==> !p(r[0]) && !p(r[|r| - 1])
    ensures r == [] <==> AllSatisfy(s, p)
  {
    var front := TrimStartWhile(s, p);
    var r := TrimEndWhile(front, p);
    assert r == [] ==> front == [];
    r
  }

  /** `str::trim`. */
  function Trim(s: string): string {
    TrimWhile(s, IsWhitespace)
  }

  /** Skipping a run of `p` characters lands exactly on the first character that is not `p`. */
  lemma {:induction false} TrimStartSkips(pre: string, u: string, p: char -> bool)
    requires AllSatisfy(pre, p)
    requires u == [] || !p(u[0])
    ensures TrimStartWhile(pre + u, p) == u
    decreases |pre|
  {
    if pre != [] {
      assert (pre + u)[1..] == pre[1..] + u;
      TrimStartSkips(pre[1..], u, p);
    } else {
      assert pre + u == u;
    }
  }

  /** Symmetric to TrimStartSkips, at the end of the string. */
  lemma {:induction false} TrimEndSkips(u: string, post: string, p: char -> bool)
    requires AllSatisfy(post, p)
    requires u == [] || !p(u[|u| - 1])
    ensures TrimEndWhile(u + post, p) == u
    decreases |post|
  {
    if post != [] {
      assert (u + post)[..|u + post| - 1] == u + post[..|post| - 1];
      TrimEndSkips(u, post[..|post| - 1], p);
    } else {
      assert u + post == u;
    }
  }

  /** A string framed by `p` characters trims to its core when the core has no `p` at its ends. */
  lemma TrimWhileFramed(pre: string, u: string, post: string, p: char -> bool)
    requires AllSatisfy(pre, p) && AllSatisfy(post, p)
    requires u != [] && !p(u[0]) && !p(u[|u| - 1])
    ensures TrimWhile(pre + u + post, p) == u
  {
    assert pre + u + post == pre + (u + post);
    TrimStartSkips(pre, u + post, p);
    TrimEndSkips(u, post, p);
  }

  /** Leading whitespace is all that `str::trim` removes from a string with non-blank ends. */
  lemma TrimIndented(indent: string, u: string)
    requires AllSatisfy(indent, IsWhitespace)
    requires u != [] && !IsWhitespace(u[0]) && !IsWhitespace(u[|u| - 1])
    ensures Trim(indent + u) == u
  {
    assert indent + u == indent + u + [];
    TrimWhileFramed(indent, u, [], IsWhitespace);
  }

  /** A run of `p` characters in front changes nothing that trimming leaves. */
  lemma {:induction false} TrimStartIgnoresPrefix(pre: string, u: string, p: char -> bool)
    requires AllSatisfy(pre, p)
    ensures TrimStartWhile(pre + u, p) == TrimStartWhile(u, p)
    decreases |pre|
  {
    if pre != [] {
      assert (pre + u)[1..] == pre[1..] + u;
      TrimStartIgnoresPrefix(pre[1..], u, p);
    } else {
      assert pre + u == u;
    }
  }

  /** Leading whitespace never changes what `str::trim` returns. */
  lemma TrimIgnoresIndent(indent: string, u: string)
    requires AllSatisfy(indent, IsWhitespace)
    ensures Trim(indent + u) == Trim(u)
  {
    TrimStartIgnoresPrefix(indent, u, IsWhitespace);
  }

  /** A string with non-blank ends is left alone by `str::trim`. */
  lemma TrimUnpadded(u: string)
    requires u != [] && !IsWhitespace(u[0]) && !IsWhitespace(u[|u| - 1])
    ensures Trim(u) == u
  {
    TrimIndented([], u);
    assert [] + u == u;
  }

  // ---------------------------------------------------------------------------
  // Prefixes, splitting and searching

  /** `str::strip_prefix`. */
  function StripPrefix(s: string, prefix: string): (r: Option<string>)
    ensures r.Some? <==> prefix <= s
    ensures r.Some? ==> prefix + r.value == s
  {
    if prefix <= s then Some(s[|prefix|..]) else None
  }

  lemma StripPrefixOf(prefix: string, rest: string)
    ensures StripPrefix(prefix + rest, prefix) == Some(rest)
  {
    assert (prefix + rest)[|prefix|..] == rest;
  }

  /** The inverse of Split: the parts glued back with `sep` between them. */
  function Join(parts: seq<string>, sep: char): string
    requires |parts| >= 1
  {
    if |parts| == 1 then parts[0] else parts[0] + [sep] + Join(parts[1..], sep)
  }

  /** `str::split` on one character: always at least one part, possibly empty ones. */
  function Split(s: string, sep: char): (parts: seq<string>)
    ensures |parts| >= 1
    ensures forall i :: 0 <= i < |parts| ==> sep !in parts[i]
    ensures Join(parts, sep) == s
    decreases |s|
  {
    if s == [] then [[]]
    else
      var rest := Split(s[1..], sep);
      if s[0] == sep then
        assert [] + [sep] + Join(rest, sep) == s;
        [[]] + rest
      else
        var parts := [[s[0]] + rest[0]] + rest[1..];
        assert parts[1..] == rest[1..];
        assert Join(parts, sep) == s by {
          if |rest| == 1 {
          } else {
            assert Join(rest, sep) == rest[0] + [sep] + Join(rest[1..], sep);
          }
        }
        parts
  }

  /** A leading separator splits off an empty first part. */
  lemma SplitSep(t: string, sep: char)
    ensures Split([sep] + t, sep) == [[]] + Split(t, sep)
  {
    assert ([sep] + t)[1..] == t;
  }

  /** A leading non-separator joins the first part. */
  lemma SplitCons(c: char, t: string, sep: char)
    requires c != sep
    ensures Split([c] + t, sep) == [[c] + Split(t, sep)[0]] + Split(t, sep)[1..]
  {
    assert ([c] + t)[1..] == t;
  }

  /** The induction step of SplitJoin for an empty first part. */
  lemma SplitJoinSepStep(parts: seq<string>, sep: char)
    requires |parts| > 1 && parts[0] == []
    requires Split(Join(parts[1..], sep), sep) == parts[1..]
    ensures Split(Join(parts, sep), sep) == parts
  {
    assert Join(parts, sep) == [sep] + Join(parts[1..], sep);
    SplitSep(Join(parts[1..], sep), sep);
    assert [[]] + parts[1..] == parts;
  }

  /** Joining parts whose first part is non-empty starts with that part's first character. */
  lemma JoinHead(parts: seq<string>, sep: char)
    requires |parts| >= 1 && parts[0] != []
    ensures Join(parts, sep) == [parts[0][0]] + Join([parts[0][1..]] + parts[1..], sep)
  {
    var p0 := parts[0];
    var tail := [p0[1..]] + parts[1..];
    assert tail[1..] == parts[1..];
    if |parts| > 1 {
      assert Join(tail, sep) == p0[1..] + [sep] + Join(parts[1..], sep);
    }
  }

  /** The induction step of SplitJoin for a non-empty first part. */
  lemma SplitJoinConsStep(parts: seq<string>, sep: char)
    requires |parts| >= 1 && parts[0] != [] && parts[0][0] != sep
    requires Split(Join([parts[0][1..]] + parts[1..], sep), sep) == [parts[0][1..]] + parts[1..]
    ensures Split(Join(parts, sep), sep) == parts
  {
    var p0 := parts[0];
    var tail := [p0[1..]] + parts[1..];
    JoinHead(parts, sep);
    SplitCons(p0[0], Join(tail, sep), sep);
    assert tail[0] == p0[1..] && tail[1..] == parts[1..];
    assert [p0[0]] + p0[1..] == p0;
    assert [[p0[0]] + tail[0]] + tail[1..] == parts;
  }

  /** Splitting undoes joining: no separator is lost or invented. */
  lemma {:induction false} SplitJoin(parts: seq<string>, sep: char)
    requires |parts| >= 1
    requires forall i :: 0 <= i < |parts| ==> sep !in parts[i]
    ensures Split(Join(parts, sep), sep) == parts
    decreases |parts|, |parts[0]|
  {
    var p0 := parts[0];
    if p0 == [] {
      if |parts| > 1 {
        SplitJoin(parts[1..], sep);
        SplitJoinSepStep(parts, sep);
      }
    } else {
      var tail := [p0[1..]] + parts[1..];
      assert tail[1..] == parts[1..];
      assert sep !in tail[0];
      SplitJoin(tail, sep);
      SplitJoinConsStep(parts, sep);
    }
  }

  /** `sub` occurs in `s` starting at index `i`. */
  predicate OccursAt(s: string, sub: string, i: int) {
    0 <= i <= |s| - |sub| && s[i..i + |sub|] == sub
  }

  /** `str::contains` for a string pattern. */
  function Contains(s: string, sub: string): (b: bool)
    ensures b <==> exists i :: OccursAt(s, sub, i)
    decreases |s|
  {
    if |sub| > |s| then false
    else if s[..|sub|] == sub then assert OccursAt(s, sub, 0); true
    else
      var rest := Contains(s[1..], sub);
      assert rest <==> exists i :: OccursAt(s, sub, i) by {
        if rest {
          var j :| OccursAt(s[1..], sub, j);
          assert s[j + 1..j + 1 + |sub|] == s[1..][j..j + |sub|];
          assert OccursAt(s, sub, j + 1);
        }
        if exists i :: OccursAt(s, sub, i) {
          var i :| OccursAt(s, sub, i);
          assert i != 0;
          assert s[1..][i - 1..i - 1 + |sub|] == s[i..i + |sub|];
          assert OccursAt(s[1..], sub, i - 1);
        }
      }
      rest
  }

  /** Containment is transitive: whatever occurs in a substring occurs in the whole. */
  lemma ContainsTransitive(s: string, a: string, b: string)
    requires Contains(s, a) && Contains(a, b)
    ensures Contains(s, b)
  {
    var i :| OccursAt(s, a, i);
    var j :| OccursAt(a, b, j);
    forall k | 0 <= k < |b| ensures s[i + j + k] == b[k] {
      assert b[k] == a[j + k] == s[i + j + k];
    }
    assert s[i + j..i + j + |b|] == b;
    assert OccursAt(s, b, i + j);
  }

  /** Position of the last occurrence of `c` (what `rsplitn(2, c)` splits at). */
  function LastIndexOf(s: string, c: char): (r: Option<nat>)
    ensures r.None? <==> c !in s
    ensures r.Some? ==> r.value < |s| && s[r.value] == c && c !in s[r.value + 1..]
    decreases |s|
  {
    if s == [] then None
    else if s[|s| - 1] == c then Some(|s| - 1)
    else
      var r := LastIndexOf(s[..|s| - 1], c);
      assert r.Some? ==> s[r.value + 1..] == s[..|s| - 1][r.value + 1..] + [s[|s| - 1]];
      assert s == s[..|s| - 1] + [s[|s| - 1]];
      r
  }

  /** The last occurrence of `c` is the one after which `c` never appears again. */
  lemma LastIndexOfAt(s: string, c: char, j: nat)
    requires j < |s| && s[j] == c && c !in s[j + 1..]
    ensures LastIndexOf(s, c) == Some(j)
  {
    var i := LastIndexOf(s, c).value;
    assert forall k :: j < k < |s| ==> s[k] in s[j + 1..];
    assert forall k :: i < k < |s| ==> s[k] in s[i + 1..];
  }

  lemma LastIndexOfBefore(head: string, c: char, after: string)
    requires c !in after
    ensures LastIndexOf(head + [c] + after, c) == Some(|head|)
  {
    var s := head + [c] + after;
    assert s[|head| + 1..] == after;
    LastIndexOfAt(s, c, |head|);
  }

  /** A non-empty run of non-whitespace characters. */
  predicate IsWord(w: string) {
    w != [] && AllSatisfy(w, NotWhitespace)
  }

  /** `str::split_whitespace`: the maximal non-empty runs of non-whitespace characters. */
  function Words(s: string): seq<string>
    decreases |s|
  {
    var t := TrimStartWhile(s, IsWhitespace);
    if t == [] then []
    else [FirstWord(t)] + Words(TrimStartWhile(t, NotWhitespace))
  }

  /** The run of non-whitespace characters that `t` starts with. */
  function FirstWord(t: string): (w: string)
    requires t != [] && NotWhitespace(t[0])
    ensures IsWord(w)
    ensures w + TrimStartWhile(t, NotWhitespace) == t
  {
    var rest := TrimStartWhile(t, NotWhitespace);
    var w := t[..|t| - |rest|];
    assert w + rest == t;
    w
  }

  /** A word preceded by whitespace and followed by whitespace (or nothing) is the first word. */
  lemma WordsCons(pre: string, w: string, t: string)
    requires AllSatisfy(pre, IsWhitespace)
    requires IsWord(w)
    requires t == [] || IsWhitespace(t[0])
    ensures Words(pre + w + t) == [w] + Words(t)
  {
    assert pre + w + t == pre + (w + t);
    TrimStartSkips(pre, w + t, IsWhitespace);
    TrimStartSkips(w, t, NotWhitespace);
    assert (w + t)[..|w|] == w;
  }

  /** Two blank-separated words come out as the first two words. */
  lemma WordsPair(a: string, b: string, rest: string)
    requires IsWord(a) && IsWord(b)
    requires rest == [] || IsWhitespace(rest[0])
    ensures var words := Words(" " + a + " " + b + rest);
            |words| >= 2 && words[0] == a && words[1] == b
  {
    var tail := " " + b + rest;
    assert tail == [] || IsWhitespace(tail[0]) by {
      assert tail[0] == ' ';
    }
    WordsCons(" ", a, tail);
    WordsCons(" ", b, rest);
    WordsPairJoin(a, b, rest);
  }

  /** The two-word line is the first word's line followed by the rest. */
  lemma WordsPairJoin(a: string, b: string, rest: string)
    ensures " " + a + " " + b + rest == " " + a + (" " + b + rest)
  {
  }

  // ---------------------------------------------------------------------------
  // Numbers

  predicate IsDigit(c: char) {
    '0' <= c <= '9'
  }

  function DigitValue(c: char): nat
    requires IsDigit(c)
  {
    (c as int) - ('0' as int)
  }

  /** The value of a string of decimal digits, most significant first. */
  function DigitsValue(s: string): nat
    requires AllSatisfy(s, IsDigit)
    decreases |s|
  {
    if s == [] then 0 else 10 * DigitsValue(s[..|s| - 1]) + DigitValue(s[|s| - 1])
  }

  /**
    `str::parse::<u32>`: an optional `+`, then at least one ASCII digit, and a
    value that fits in 32 bits; anything else is an error.
   */
  function ParseU32(s: string): Option<U32> {
    var digits := if |s| > 0 && s[0] == '+' then s[1..] else s;
    if digits != [] && AllSatisfy(digits, IsDigit) && DigitsValue(digits) < U32_LIMIT
    then Some(DigitsValue(digits))
    else None
  }

  function DigitChar(d: nat): (c: char)
    requires d < 10
    ensures IsDigit(c) && DigitValue(c) == d
  {
    ('0' as int + d) as char
  }

  /** The decimal rendering of a number, as `to_string` prints it. */
  function Decimal(n: nat): string
    decreases n
  {
    if n < 10 then [DigitChar(n)] else Decimal(n / 10) + [DigitChar(n % 10)]
  }

  lemma {:induction false} DecimalDigits(n: nat)
    ensures Decimal(n) != [] && AllSatisfy(Decimal(n), IsDigit)
    ensures DigitsValue(Decimal(n)) == n
    decreases n
  {
    if n >= 10 {
      DecimalDigits(n / 10);
      var s := Decimal(n);
      assert s[..|s| - 1] == Decimal(n / 10);
    }
  }

  /** A decimal rendering is a single word. */
  lemma DecimalIsWord(n: nat)
    ensures IsWord(Decimal(n))
  {
    DecimalDigits(n);
    var s := Decimal(n);
    assert forall i :: 0 <= i < |s| ==> IsDigit(s[i]);
  }

  /** A decimal rendering has no whitespace at either end. */
  lemma DecimalUnpadded(n: nat)
    ensures Decimal(n) != [] && !IsWhitespace(Decimal(n)[0]) && !IsWhitespace(Decimal(n)[|Decimal(n)| - 1])
  {
    DecimalDigits(n);
    var s := Decimal(n);
    assert IsDigit(s[0]) && IsDigit(s[|s| - 1]);
  }

  /** Every `u32` printed in decimal, with or without a `+`, parses back to itself. */
  lemma ParseU32Decimal(n: U32)
    ensures ParseU32(Decimal(n)) == Some(n)
    ensures ParseU32("+" + Decimal(n)) == Some(n)
  {
    DecimalDigits(n);
    assert ("+" + Decimal(n))[1..] == Decimal(n);
  }

  /** The empty string, a lone sign and a negative number are all rejected. */
  lemma ParseU32Rejects(s: string)
    ensures ParseU32("") == None && ParseU32("+") == None
    ensures |s| > 0 && s[0] == '-' ==> ParseU32(s) == None
  {
  }

  // ---------------------------------------------------------------------------
  // Case folding

  /** Lower-cases the ASCII letters and leaves every other character alone. */
  function AsciiLower(c: char): char {
    if 'A' <= c <= 'Z' then ((c as int) + 32) as char else c
  }

  function AsciiLowercase(s: string): (r: string)
    ensures |r| == |s| && forall i :: 0 <= i < |s| ==> r[i] == AsciiLower(s[i])
  {
    seq(|s|, i requires 0 <= i < |s| => AsciiLower(s[i]))
  }

  /**
    Lower-casing leaves no ASCII capital behind, changes nothing but ASCII
    capitals, and applied twice is the same as applied once.
   */
  lemma AsciiLowercaseFolds(s: string)
    ensures forall i :: 0 <= i < |s| ==> !('A' <= AsciiLowercase(s)[i] <= 'Z')
    ensures forall i :: 0 <= i < |s| && !('A' <= s[i] <= 'Z') ==> AsciiLowercase(s)[i] == s[i]
    ensures AsciiLowercase(AsciiLowercase(s)) == AsciiLowercase(s)
  {
  }

  /** Lower-casing commutes with taking a slice. */
  lemma AsciiLowercaseSlice(s: string, i: nat, j: nat)
    requires i <= j <= |s|
    ensures AsciiLowercase(s)[i..j] == AsciiLowercase(s[i..j])
  {
  }

  /** `w` occurs in `s` at index `i` once `s` is lower-cased. */
  predicate OccursIgnoringCaseAt(s: string, w: string, i: int) {
    0 <= i <= |s| - |w| && AsciiLowercase(s[i..i + |w|]) == w
  }

  /** Searching the lower-cased string finds `w` wherever some stretch of `s` lower-cases to it. */
  lemma ContainsIgnoringCase(s: string, w: string)
    ensures Contains(AsciiLowercase(s), w) <==> exists i :: OccursIgnoringCaseAt(s, w, i)
  {
    var lower := AsciiLowercase(s);
    if Contains(lower, w) {
      var i :| OccursAt(lower, w, i);
      AsciiLowercaseSlice(s, i, i + |w|);
      assert OccursIgnoringCaseAt(s, w, i);
    }
    if exists i :: OccursIgnoringCaseAt(s, w, i) {
      var i :| OccursIgnoringCaseAt(s, w, i);
      AsciiLowercaseSlice(s, i, i + |w|);
      assert OccursAt(lower, w, i);
    }
  }
}
