/**
 * The string built-ins the two CSS assemblers rely on, written out over `seq<char>`:
 * PHP `trim`, `strtolower`, `preg_replace('/\s+/', '_', ...)`, `empty`, `implode('', ...)`,
 * `str_replace` / JavaScript `replaceAll` with a plain string pattern, JavaScript `replace`,
 * `indexOf` and `includes` with a string pattern, and the decimal rendering of an integer
 * used by string interpolation in both languages.
 */
module Strings {
  import opened Wrappers

  // ---------------------------------------------------------------------------
  // Character classes
  // ---------------------------------------------------------------------------

  /** The characters PHP's `trim` strips when no list is given: space, tab, LF, CR, NUL, vertical tab. */
  predicate IsTrimChar(c: char) {
    c == ' ' || c == '\t' || c == '\n' || c == '\r' || c == '\0' || c == '\U{000B}'
  }

  /** The characters PCRE's `\s` matches: space, tab, LF, vertical tab, form feed, CR. */
  predicate IsSpace(c: char) {
    c == ' ' || c == '\t' || c == '\n' || c == '\U{000B}' || c == '\U{000C}' || c == '\r'
  }

  predicate AllTrimChars(s: string) {
    forall k :: 0 <= k < |s| ==> IsTrimChar(s[k])
  }

  predicate IsDigit(c: char) {
    '0' <= c <= '9'
  }

  // ---------------------------------------------------------------------------
  // trim
  // ---------------------------------------------------------------------------

  /** `s` without its leading trim characters. */
  function TrimStart(s: string): (r: string)
    ensures |r| <= |s| && r == s[|s| - |r|..]
    ensures AllTrimChars(s[..|s| - |r|])
    ensures r == [] || !IsTrimChar(r[0])
  {
    if s != [] && IsTrimChar(s[0]) then TrimStart(s[1..]) else s
  }

  /** `s` without its trailing trim characters. */
  function TrimEnd(s: string): (r: string)
    ensures |r| <= |s| && r == s[..|r|]
    ensures AllTrimChars(s[|r|..])
    ensures r == [] || !IsTrimChar(r[|r| - 1])
  {
    if s != [] && IsTrimChar(s[|s| - 1]) then TrimEnd(s[..|s| - 1]) else s
  }

  /**
   * PHP `trim($s)`: the infix of `s` left after the leading and trailing runs of trim
   * characters are removed; the result neither starts nor ends with one.
   */
  function Trim(s: string): (r: string)
    ensures r == [] || (!IsTrimChar(r[0]) && !IsTrimChar(r[|r| - 1]))
    ensures var i := |s| - |TrimStart(s)|;
      i + |r| <= |s| && r == s[i..i + |r|] && AllTrimChars(s[..i]) && AllTrimChars(s[i + |r|..])
  {
    TrimEnd(TrimStart(s))
  }

  /** A string that neither starts nor ends with a trim character is its own trimming. */
  lemma TrimKeepsTrimmed(s: string)
    requires s == [] || (!IsTrimChar(s[0]) && !IsTrimChar(s[|s| - 1]))
    ensures Trim(s) == s
  {
  }

  /** Trimming twice is trimming once. */
  lemma TrimIdempotent(s: string)
    ensures Trim(Trim(s)) == Trim(s)
  {
    TrimKeepsTrimmed(Trim(s));
  }

  /** PHP `empty($s)` for a string: true for "" and for "0". */
  predicate PhpEmpty(s: string) {
    s == "" || s == "0"
  }

  /** An `empty` string is already trimmed, so its trimmed text is `empty` too. */
  lemma EmptyTrimmed(s: string)
    requires PhpEmpty(s)
    ensures Trim(s) == s
  {
    TrimKeepsTrimmed(s);
  }

  // ---------------------------------------------------------------------------
  // strtolower and preg_replace('/\s+/', '_', ...)
  // ---------------------------------------------------------------------------

  /** The ASCII lower-casing PHP 8 `strtolower` applies to one byte. */
  function LowerChar(c: char): char {
    if 'A' <= c <= 'Z' then (c as int + 32) as char else c
  }

  /** PHP 8 `strtolower`: every ASCII capital letter lowered, everything else kept. */
  function ToLower(s: string): (r: string)
    ensures |r| == |s|
    ensures forall k :: 0 <= k < |s| ==> r[k] == LowerChar(s[k])
  {
    if s == [] then [] else [LowerChar(s[0])] + ToLower(s[1..])
  }

  /** `s` without its leading run of `\s` characters. */
  function DropSpaces(s: string): (r: string)
    ensures |r| <= |s| && r == s[|s| - |r|..]
    ensures r == [] || !IsSpace(r[0])
  {
    if s != [] && IsSpace(s[0]) then DropSpaces(s[1..]) else s
  }

  /**
   * `preg_replace('/\s+/', '_', $s)`: every maximal run of `\s` characters becomes one `_`.
   * The result holds no `\s` character.
   */
  function CollapseSpaces(s: string): (r: string)
    ensures forall k :: 0 <= k < |r| ==> !IsSpace(r[k])
    decreases |s|
  {
    if s == [] then []
    else if IsSpace(s[0]) then "_" + CollapseSpaces(DropSpaces(s[1..]))
    else [s[0]] + CollapseSpaces(s[1..])
  }

  /** A non-empty run of `\s` characters, up to the next non-space, becomes a single `_`. */
  lemma CollapseRun(run: string, b: string)
    requires run != [] && forall k :: 0 <= k < |run| ==> IsSpace(run[k])
    requires b == [] || !IsSpace(b[0])
    ensures CollapseSpaces(run + b) == "_" + CollapseSpaces(b)
  {
    var u := run + b;
    assert u[0] == run[0] && u[1..] == run[1..] + b;
    SpacesTail(run);
    SpacesThenRest(run[1..], b);
    CollapseSpaceHead(u, b);
  }

  /** One unfolding of `CollapseSpaces` at a leading `\s` character. */
  lemma CollapseSpaceHead(u: string, b: string)
    requires u != [] && IsSpace(u[0]) && DropSpaces(u[1..]) == b
    ensures CollapseSpaces(u) == "_" + CollapseSpaces(b)
  {
  }

  /** The rest of a run of `\s` characters is a run too. */
  lemma SpacesTail(run: string)
    requires run != [] && forall k :: 0 <= k < |run| ==> IsSpace(run[k])
    ensures forall k :: 0 <= k < |run[1..]| ==> IsSpace(run[1..][k])
  {
    assert forall k :: 0 <= k < |run[1..]| ==> run[1..][k] == run[k + 1];
  }

  /** Text without `\s` characters is copied through. */
  lemma {:induction false} CollapseWord(w: string, t: string)
    requires forall k :: 0 <= k < |w| ==> !IsSpace(w[k])
    ensures CollapseSpaces(w + t) == w + CollapseSpaces(t)
    decreases |w|
  {
    if w == [] {
      assert w + t == t;
    } else {
      var u := w + t;
      assert u[0] == w[0] && !IsSpace(u[0]);
      assert u[1..] == w[1..] + t;
      assert CollapseSpaces(u) == [w[0]] + CollapseSpaces(w[1..] + t);
      assert forall k :: 0 <= k < |w[1..]| ==> !IsSpace(w[1..][k]) by {
        assert forall k :: 0 <= k < |w[1..]| ==> w[1..][k] == w[k + 1];
      }
      CollapseWord(w[1..], t);
      assert w == [w[0]] + w[1..];
    }
  }

  /** A string without `\s` characters is left as it is. */
  lemma CollapseFree(s: string)
    requires forall k :: 0 <= k < |s| ==> !IsSpace(s[k])
    ensures CollapseSpaces(s) == s
  {
    CollapseWord(s, []);
    assert s + [] == s;
  }

  /** A leading run of spaces is dropped up to the first non-space. */
  lemma {:induction false} SpacesThenRest(sp: string, b: string)
    requires forall k :: 0 <= k < |sp| ==> IsSpace(sp[k])
    requires b == [] || !IsSpace(b[0])
    ensures DropSpaces(sp + b) == b
    decreases |sp|
  {
    if sp == [] {
      assert sp + b == b;
    } else {
      assert (sp + b)[1..] == sp[1..] + b;
      SpacesThenRest(sp[1..], b);
    }
  }

  // ---------------------------------------------------------------------------
  // implode('', ...)
  // ---------------------------------------------------------------------------

  /** `implode('', $parts)`: the parts joined with no separator, in order. */
  function Concat(parts: seq<string>): string {
    if parts == [] then [] else Concat(parts[..|parts| - 1]) + parts[|parts| - 1]
  }

  /** Joining two lists of parts is joining each and appending the results. */
  lemma {:induction false} ConcatAppend(a: seq<string>, b: seq<string>)
    ensures Concat(a + b) == Concat(a) + Concat(b)
    decreases |b|
  {
    if b == [] {
      assert a + b == a;
    } else {
      var n := |b| - 1;
      var u := a + b;
      assert u[..|u| - 1] == a + b[..n];
      assert u[|u| - 1] == b[n];
      assert Concat(u) == Concat(a + b[..n]) + b[n];
      ConcatAppend(a, b[..n]);
      assert Concat(b) == Concat(b[..n]) + b[n];
    }
  }

  /** Joining one part more appends that part. */
  lemma ConcatSnoc(parts: seq<string>, i: nat)
    requires i < |parts|
    ensures Concat(parts[..i + 1]) == Concat(parts[..i]) + parts[i]
  {
    assert parts[..i + 1][..i] == parts[..i];
  }

  // ---------------------------------------------------------------------------
  // Matching and replacing a plain string pattern
  // ---------------------------------------------------------------------------

  predicate StartsWith(s: string, p: string) {
    |p| <= |s| && s[..|p|] == p
  }

  /** JavaScript `s.includes(p)`: some position of `s` starts an occurrence of `p`. */
  predicate Contains(s: string, p: string)
    decreases |s|
  {
    StartsWith(s, p) || (s != [] && Contains(s[1..], p))
  }

  /**
   * PHP `str_replace($p, $rep, $s)` and JavaScript `s.replaceAll(p, rep)` for a non-empty
   * string pattern: scanning from the left, each occurrence of `p` that does not overlap an
   * earlier replaced one becomes `rep`.
   */
  function ReplaceAll(s: string, p: string, rep: string): string
    requires p != []
    decreases |s|
  {
    if s == [] then []
    else if StartsWith(s, p) then rep + ReplaceAll(s[|p|..], p, rep)
    else [s[0]] + ReplaceAll(s[1..], p, rep)
  }

  /** No position of `s` before `i` starts an occurrence of `p`. */
  predicate NoOccurrenceBefore(s: string, p: string, i: nat)
    decreases i
  {
    i == 0 || (s != [] && !StartsWith(s, p) && NoOccurrenceBefore(s[1..], p, i - 1))
  }

  /** `i` is the first position of `s` that starts an occurrence of `p`. */
  predicate FirstOccurrence(s: string, p: string, i: nat) {
    i + |p| <= |s| && StartsWith(s[i..], p) && NoOccurrenceBefore(s, p, i)
  }

  /**
   * JavaScript `s.indexOf(p)` for a non-empty pattern: the first position that starts an
   * occurrence of `p`, or `None` (JavaScript's -1) when `s` does not contain it.
   */
  function IndexOf(s: string, p: string): (r: Option<nat>)
    requires p != []
    ensures r.None? <==> !Contains(s, p)
    ensures r.Some? ==> FirstOccurrence(s, p, r.value)
    decreases |s|
  {
    if s == [] then None
    else if StartsWith(s, p) then
      assert s[0..] == s;
      Some(0)
    else
      match IndexOf(s[1..], p)
      case None => None
      case Some(i) =>
        assert s[1..][i..] == s[i + 1..];
        Some(i + 1)
  }

  /**
   * JavaScript `s.replace(p, rep)` for a string pattern: the text before the first
   * occurrence, `rep`, and the text after that occurrence; `s` itself when there is none.
   */
  function ReplaceFirst(s: string, p: string, rep: string): (r: string)
    requires p != []
    ensures !Contains(s, p) ==> r == s
    ensures Contains(s, p) ==> |r| == |s| - |p| + |rep|
  {
    match IndexOf(s, p)
    case None => s
    case Some(i) => s[..i] + rep + s[i + |p|..]
  }

  /** `NoOccurrenceBefore` says what its name says, position by position. */
  lemma {:induction false} NoOccurrenceBeforeIff(s: string, p: string, i: nat)
    requires i <= |s|
    ensures NoOccurrenceBefore(s, p, i) <==> forall j :: 0 <= j < i ==> !StartsWith(s[j..], p)
    decreases i
  {
    if i > 0 {
      NoOccurrenceBeforeIff(s[1..], p, i - 1);
      assert s[0..] == s;
      assert forall j :: 0 < j < i ==> s[j..] == s[1..][j - 1..];
    }
  }

  /** A text has at most one first occurrence of a pattern. */
  lemma FirstOccurrenceUnique(s: string, p: string, i: nat, j: nat)
    requires FirstOccurrence(s, p, i) && FirstOccurrence(s, p, j)
    ensures i == j
  {
    NoOccurrenceBeforeIff(s, p, i);
    NoOccurrenceBeforeIff(s, p, j);
  }

  /** An occurrence anywhere in `s` means `s` contains the pattern. */
  lemma {:induction false} ContainsAt(s: string, p: string, i: nat)
    requires i <= |s| && StartsWith(s[i..], p)
    ensures Contains(s, p)
    decreases i
  {
    if i == 0 {
      assert s[0..] == s;
    } else {
      assert s[1..][i - 1..] == s[i..];
      ContainsAt(s[1..], p, i - 1);
    }
  }

  /**
   * `replace` changes the leftmost occurrence and nothing else: the result is the text
   * before it, the replacement, and the text after it.
   */
  lemma ReplaceFirstAt(s: string, p: string, rep: string, i: nat)
    requires p != [] && FirstOccurrence(s, p, i)
    ensures ReplaceFirst(s, p, rep) == s[..i] + rep + s[i + |p|..]
  {
    ContainsAt(s, p, i);
    FirstOccurrenceUnique(s, p, IndexOf(s, p).value, i);
  }

  /**
   * When the pattern's first character is absent from `m`, `replace` on `m + p + y`
   * turns the `p` right after `m` into `rep`.
   */
  lemma ReplaceFirstAfterPrefix(m: string, p: string, y: string, rep: string)
    requires p != [] && forall k :: 0 <= k < |m| ==> m[k] != p[0]
    ensures ReplaceFirst(m + (p + y), p, rep) == m + rep + y
  {
    var x := p + y;
    var s := m + x;
    NoOccurrenceInPrefix(m, x, p);
    assert s[|m|..] == x;
    assert x[..|p|] == p;
    ReplaceFirstAt(s, p, rep, |m|);
    assert s[..|m|] == m;
    assert s[|m| + |p|..] == y;
  }

  /** A prefix without the pattern's first character holds no occurrence start. */
  lemma {:induction false} NoOccurrenceInPrefix(m: string, x: string, p: string)
    requires p != [] && forall k :: 0 <= k < |m| ==> m[k] != p[0]
    ensures NoOccurrenceBefore(m + x, p, |m|)
    decreases |m|
  {
    if m != [] {
      assert (m + x)[1..] == m[1..] + x;
      assert (m + x)[0] == m[0];
      NoOccurrenceInPrefix(m[1..], x, p);
    }
  }

  /**
   * The pieces of `s` between the leftmost non-overlapping occurrences of `p`; the
   * reference decomposition against which `ReplaceAll` is stated.
   */
  function Split(s: string, p: string): (r: seq<string>)
    requires p != []
    ensures |r| >= 1 && StartsWith(s, r[0])
    decreases |s|
  {
    if s == [] then [[]]
    else if StartsWith(s, p) then [[]] + Split(s[|p|..], p)
    else var t := Split(s[1..], p); [[s[0]] + t[0]] + t[1..]
  }

  /** The chunks joined with `sep` between consecutive ones. */
  function Join(chunks: seq<string>, sep: string): string
    decreases |chunks|
  {
    if chunks == [] then []
    else if |chunks| == 1 then chunks[0]
    else chunks[0] + sep + Join(chunks[1..], sep)
  }

  /** Joining the chunks back with the pattern gives the original string. */
  lemma {:induction false} SplitJoin(s: string, p: string)
    requires p != []
    ensures Join(Split(s, p), p) == s
    decreases |s|
  {
    if s == [] {
    } else if StartsWith(s, p) {
      SplitJoin(s[|p|..], p);
      JoinConsEmpty(Split(s[|p|..], p), p);
      assert s == p + s[|p|..];
    } else {
      SplitJoin(s[1..], p);
      JoinConsFirst(s[0], Split(s[1..], p), p);
      assert s == [s[0]] + s[1..];
    }
  }

  /** An empty first chunk puts the separator in front. */
  lemma JoinConsEmpty(t: seq<string>, sep: string)
    requires |t| >= 1
    ensures Join([[]] + t, sep) == sep + Join(t, sep)
  {
    var u := [[]] + t;
    assert u[0] == [] && u[1..] == t;
  }

  /** Prefixing the first chunk prefixes the join. */
  lemma JoinConsFirst(c: char, t: seq<string>, sep: string)
    requires |t| >= 1
    ensures Join([[c] + t[0]] + t[1..], sep) == [c] + Join(t, sep)
  {
    var u := [[c] + t[0]] + t[1..];
    assert u[1..] == t[1..];
  }

  /** No chunk contains the pattern: the occurrences `Split` cuts at are all there are, leftmost first. */
  lemma {:induction false} SplitChunksFree(s: string, p: string)
    requires p != []
    ensures forall i :: 0 <= i < |Split(s, p)| ==> !Contains(Split(s, p)[i], p)
    decreases |s|
  {
    if s == [] {
      assert !StartsWith([], p);
    } else if StartsWith(s, p) {
      SplitChunksFree(s[|p|..], p);
      assert !StartsWith([], p);
      var r := Split(s, p);
      forall i | 0 <= i < |r| ensures !Contains(r[i], p) {
        if i > 0 { assert r[i] == Split(s[|p|..], p)[i - 1]; }
      }
    } else {
      var t := Split(s[1..], p);
      SplitChunksFree(s[1..], p);
      var c := [s[0]] + t[0];
      assert StartsWith(s, c);
      assert |p| <= |c| ==> s[..|p|] == c[..|p|];
      assert c[1..] == t[0];
      var r := Split(s, p);
      forall i | 0 <= i < |r| ensures !Contains(r[i], p) {
        if i > 0 { assert r[i] == t[i]; }
      }
    }
  }

  /** Replacing every occurrence is joining the chunks with the replacement in place of the pattern. */
  lemma {:induction false} ReplaceAllIsJoin(s: string, p: string, rep: string)
    requires p != []
    ensures ReplaceAll(s, p, rep) == Join(Split(s, p), rep)
    decreases |s|
  {
    if s == [] {
    } else if StartsWith(s, p) {
      ReplaceAllIsJoin(s[|p|..], p, rep);
      assert Split(s, p) == [[]] + Split(s[|p|..], p);
      JoinConsEmpty(Split(s[|p|..], p), rep);
    } else {
      var t := Split(s[1..], p);
      ReplaceAllIsJoin(s[1..], p, rep);
      assert Split(s, p) == [[s[0]] + t[0]] + t[1..];
      JoinConsFirst(s[0], t, rep);
    }
  }

  /** Text in which the pattern does not occur is left unchanged. */
  lemma {:induction false} ReplaceAllAbsent(s: string, p: string, rep: string)
    requires p != [] && !Contains(s, p)
    ensures ReplaceAll(s, p, rep) == s
    decreases |s|
  {
    if s != [] {
      ReplaceAllAbsent(s[1..], p, rep);
    }
  }

  /** A prefix without the pattern's first character passes through unchanged. */
  lemma {:induction false} ReplaceAllSkipsPrefix(m: string, x: string, p: string, rep: string)
    requires p != [] && forall k :: 0 <= k < |m| ==> m[k] != p[0]
    ensures ReplaceAll(m + x, p, rep) == m + ReplaceAll(x, p, rep)
    decreases |m|
  {
    if m != [] {
      assert (m + x)[0] == m[0];
      assert (m + x)[1..] == m[1..] + x;
      ReplaceAllSkipsPrefix(m[1..], x, p, rep);
    } else {
      assert m + x == x;
    }
  }

  /**
   * When the second string starts with a character the pattern does not contain, no
   * occurrence can straddle the boundary, so replacing in the concatenation is replacing in
   * each half.
   */
  lemma {:induction false} ReplaceAllAppend(a: string, b: string, p: string, rep: string)
    requires p != []
    requires b == [] || forall k :: 0 <= k < |p| ==> p[k] != b[0]
    ensures ReplaceAll(a + b, p, rep) == ReplaceAll(a, p, rep) + ReplaceAll(b, p, rep)
    decreases |a|
  {
    if a == [] {
      assert a + b == b;
    } else {
      var u := a + b;
      StartsWithAppend(a, b, p);
      if StartsWith(a, p) {
        assert u[|p|..] == a[|p|..] + b;
        assert ReplaceAll(u, p, rep) == rep + ReplaceAll(a[|p|..] + b, p, rep);
        ReplaceAllAppend(a[|p|..], b, p, rep);
        assert ReplaceAll(a, p, rep) == rep + ReplaceAll(a[|p|..], p, rep);
      } else {
        assert u[0] == a[0];
        assert u[1..] == a[1..] + b;
        assert ReplaceAll(u, p, rep) == [a[0]] + ReplaceAll(a[1..] + b, p, rep);
        ReplaceAllAppend(a[1..], b, p, rep);
        assert ReplaceAll(a, p, rep) == [a[0]] + ReplaceAll(a[1..], p, rep);
      }
    }
  }

  /** `ReplaceAll` applied to each part separately. */
  function ReplaceEach(parts: seq<string>, p: string, rep: string): seq<string>
    requires p != []
  {
    seq(|parts|, i requires 0 <= i < |parts| => ReplaceAll(parts[i], p, rep))
  }

  /**
   * When every part after the first starts with a character the pattern does not contain,
   * no occurrence spans two parts: replacing in the join is joining the replaced parts.
   */
  lemma {:induction false} ReplaceAllConcat(parts: seq<string>, p: string, rep: string)
    requires p != []
    requires forall i :: 0 < i < |parts| ==> parts[i] == [] || forall k :: 0 <= k < |p| ==> p[k] != parts[i][0]
    ensures ReplaceAll(Concat(parts), p, rep) == Concat(ReplaceEach(parts, p, rep))
    decreases |parts|
  {
    if parts != [] {
      var n := |parts| - 1;
      var init := parts[..n];
      ReplaceAllConcat(init, p, rep);
      assert ReplaceEach(parts, p, rep)[..n] == ReplaceEach(init, p, rep);
      if n == 0 {
        var r := ReplaceEach(parts, p, rep);
        assert Concat(parts) == Concat(parts[..0]) + parts[0] == parts[0];
        assert Concat(r) == Concat(r[..0]) + r[0] == r[0];
      } else {
        ReplaceAllAppend(Concat(init), parts[n], p, rep);
      }
    }
  }

  /** An occurrence at the start of `a + b` lies within `a` when `b` starts outside the pattern. */
  lemma StartsWithAppend(a: string, b: string, p: string)
    requires b == [] || forall k :: 0 <= k < |p| ==> p[k] != b[0]
    ensures StartsWith(a + b, p) == StartsWith(a, p)
  {
    if |a| >= |p| {
      assert (a + b)[..|p|] == a[..|p|];
    } else if |p| <= |a + b| {
      assert (a + b)[..|p|][|a|] == b[0] != p[|a|];
    }
  }

  // ---------------------------------------------------------------------------
  // Decimal rendering of integers ("{$v}" in PHP, `${v}` in JavaScript)
  // ---------------------------------------------------------------------------

  function DigitChar(d: nat): (c: char)
    requires d < 10
    ensures IsDigit(c)
  {
    ('0' as int + d) as char
  }

  function DigitValue(c: char): nat
    requires IsDigit(c)
  {
    c as int - '0' as int
  }

  /** The decimal digits of `n`, most significant first, with no leading zero. */
  function NatToString(n: nat): (r: string)
    ensures |r| >= 1 && (forall k :: 0 <= k < |r| ==> IsDigit(r[k]))
    ensures |r| > 1 ==> r[0] != '0'
    decreases n
  {
    if n < 10 then [DigitChar(n)] else NatToString(n / 10) + [DigitChar(n % 10)]
  }

  /** The decimal rendering of `i`, with a leading `-` when it is negative. */
  function IntToString(i: int): (r: string)
    ensures |r| >= 1 && forall k :: 0 <= k < |r| ==> IsDigit(r[k]) || (k == 0 && r[k] == '-')
  {
    if i < 0 then "-" + NatToString(-i) else NatToString(i)
  }

  /** The value of a string of decimal digits. */
  function ParseNat(s: string): nat
    requires forall k :: 0 <= k < |s| ==> IsDigit(s[k])
  {
    if s == [] then 0 else ParseNat(s[..|s| - 1]) * 10 + DigitValue(s[|s| - 1])
  }

  /** The value of an optionally `-`-signed string of decimal digits. */
  function ParseInt(s: string): int
    requires s != [] ==> forall k :: 0 <= k < |s| ==> IsDigit(s[k]) || (k == 0 && s[k] == '-')
  {
    if s != [] && s[0] == '-' then -(ParseNat(s[1..]) as int) else ParseNat(s)
  }

  lemma {:induction false} ParseNatToString(n: nat)
    ensures ParseNat(NatToString(n)) == n
    decreases n
  {
    if n >= 10 {
      ParseNatToString(n / 10);
      var s := NatToString(n);
      assert s[..|s| - 1] == NatToString(n / 10);
    }
  }

  /** Rendering an integer in decimal loses nothing: parsing it back gives the integer. */
  lemma IntToStringRoundTrip(i: int)
    ensures ParseInt(IntToString(i)) == i
  {
    if i < 0 {
      ParseNatToString(-i);
      assert IntToString(i)[1..] == NatToString(-i);
    } else {
      ParseNatToString(i);
    }
  }
}
