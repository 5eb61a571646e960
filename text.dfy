/**
 * The JavaScript string built-ins the page script relies on, stated over Dafny
 * strings (a `char` is a Unicode scalar value): `startsWith`, `includes`,
 * `indexOf` of one character, `trim`, and the global replacement of every
 * escaped dot `\.` by `.`.
 */
module Text {

  /** `s.startsWith(prefix)` */
  predicate StartsWith(s: string, prefix: string)
  {
    |prefix| <= |s| && s[..|prefix|] == prefix
  }

  /** `t` occurs in `s` at index `i`. */
  predicate OccursAt(s: string, t: string, i: nat)
  {
    i + |t| <= |s| && s[i..i + |t|] == t
  }

  /** `s.includes(t)`, looking only at occurrences that start at `from` or later. */
  function IncludesFrom(s: string, t: string, from: nat): (r: bool)
    decreases |s| - from
    ensures r <==> exists i: nat :: from <= i && OccursAt(s, t, i)
  {
    if from + |t| > |s| then false
    else if s[from..from + |t|] == t then assert OccursAt(s, t, from); true
    else IncludesFrom(s, t, from + 1)
  }

  /** `s.includes(t)` */
  function Includes(s: string, t: string): (r: bool)
    ensures r <==> exists i: nat :: OccursAt(s, t, i)
  {
    IncludesFrom(s, t, 0)
  }

  /** `s.indexOf(c)`: the index of the first `c` in `s`, or -1 when there is none. */
  function IndexOf(s: string, c: char): (r: int)
    ensures -1 <= r < |s|
    ensures r == -1 <==> c !in s
    ensures 0 <= r ==> s[r] == c && c !in s[..r]
  {
    if |s| == 0 then -1
    else if s[0] == c then 0
    else
      var k := IndexOf(s[1..], c);
      assert s == [s[0]] + s[1..];
      if k == -1 then -1
      else
        assert s[..k + 1] == [s[0]] + s[1..][..k];
        k + 1
  }

  /** `indexOf` finds the first occurrence. */
  lemma IndexOfFirst(s: string, c: char, k: nat)
    requires k < |s| && s[k] == c && c !in s[..k]
    ensures IndexOf(s, c) == k
  {
  }

  /**
   * The characters `String.prototype.trim` removes: the ECMAScript WhiteSpace
   * set (tab, vertical tab, form feed, space, no-break space, byte order mark
   * and the Unicode space separators) and the LineTerminator set.
   */
  predicate IsWhiteSpace(c: char)
  {
    c == '\t' || c == '\n' || c == '\U{000B}' || c == '\U{000C}' || c == '\r' || c == ' '
    || c == '\U{00A0}' || c == '\U{1680}' || ('\U{2000}' <= c <= '\U{200A}')
    || c == '\U{2028}' || c == '\U{2029}' || c == '\U{202F}' || c == '\U{205F}'
    || c == '\U{3000}' || c == '\U{FEFF}'
  }

  predicate AllWhiteSpace(s: string)
  {
    forall i :: 0 <= i < |s| ==> IsWhiteSpace(s[i])
  }

  /** `s.trimStart()`: `s` without its leading white space. */
  function TrimStart(s: string): (r: string)
    ensures |r| <= |s|
  {
    if |s| > 0 && IsWhiteSpace(s[0]) then TrimStart(s[1..]) else s
  }

  /** `s.trimEnd()`: `s` without its trailing white space. */
  function TrimEnd(s: string): (r: string)
    ensures |r| <= |s|
  {
    if |s| > 0 && IsWhiteSpace(s[|s| - 1]) then TrimEnd(s[..|s| - 1]) else s
  }

  /** `TrimStart` drops the longest white-space prefix and nothing else. */
  lemma {:induction false} TrimStartDropsWhiteSpace(s: string)
    ensures s[|s| - |TrimStart(s)|..] == TrimStart(s)
    ensures AllWhiteSpace(s[..|s| - |TrimStart(s)|])
    ensures TrimStart(s) == [] || !IsWhiteSpace(TrimStart(s)[0])
    decreases |s|
  {
    if |s| > 0 && IsWhiteSpace(s[0]) {
      TrimStartDropsWhiteSpace(s[1..]);
      assert s[..|s| - |TrimStart(s)|] == [s[0]] + s[1..][..|s| - 1 - |TrimStart(s)|];
    }
  }

  /** `TrimEnd` drops the longest white-space suffix and nothing else. */
  lemma {:induction false} TrimEndDropsWhiteSpace(s: string)
    ensures s[..|TrimEnd(s)|] == TrimEnd(s)
    ensures AllWhiteSpace(s[|TrimEnd(s)|..])
    ensures TrimEnd(s) == [] || !IsWhiteSpace(TrimEnd(s)[|TrimEnd(s)| - 1])
    decreases |s|
  {
    if |s| > 0 && IsWhiteSpace(s[|s| - 1]) {
      var init := s[..|s| - 1];
      TrimEndDropsWhiteSpace(init);
      assert s[|TrimEnd(s)|..] == init[|TrimEnd(init)|..] + [s[|s| - 1]];
    }
  }

  /** `s.trim()`: `s` with its leading and trailing white space removed. */
  function Trim(s: string): (r: string)
    ensures |r| <= |s|
  {
    TrimEnd(TrimStart(s))
  }

  /**
   * What `trim` returns neither starts nor ends with white space, and what it
   * removes is white space only: the result is the slice of `s` that is framed
   * on both sides by white space.
   */
  lemma TrimIsFramedSlice(s: string)
    ensures Trim(s) == [] || (!IsWhiteSpace(Trim(s)[0]) && !IsWhiteSpace(Trim(s)[|Trim(s)| - 1]))
    ensures exists i: nat :: i + |Trim(s)| <= |s| && s[i..i + |Trim(s)|] == Trim(s)
                             && AllWhiteSpace(s[..i]) && AllWhiteSpace(s[i + |Trim(s)|..])
  {
    var t := TrimStart(s);
    var r := TrimEnd(t);
    TrimStartDropsWhiteSpace(s);
    TrimEndDropsWhiteSpace(t);
    var a := |s| - |t|;
    if r != [] {
      assert r[0] == t[0];
    }
    assert s[a..a + |r|] == r;
    assert s[a + |r|..] == t[|r|..];
  }

  /** An escaped dot, a backslash followed by a dot, starts at index `i` of `s`. */
  predicate EscapedDotAt(s: string, i: nat)
  {
    i + 1 < |s| && s[i] == '\\' && s[i + 1] == '.'
  }

  ghost predicate HasEscapedDot(s: string)
  {
    exists i: nat :: EscapedDotAt(s, i)
  }

  /**
   * `s.replace(/\\\./g, '.')`: scanning from the left, every escaped dot is
   * replaced by a plain dot, and the scan resumes after the replaced pair.
   */
  function ReplaceEscapedDots(s: string): (r: string)
    decreases |s|
    ensures |r| <= |s|
  {
    if |s| == 0 then ""
    else if EscapedDotAt(s, 0) then "." + ReplaceEscapedDots(s[2..])
    else [s[0]] + ReplaceEscapedDots(s[1..])
  }

  /** A string without an escaped dot is left as it is. */
  lemma {:induction false} ReplaceWithoutEscapedDot(s: string)
    requires !HasEscapedDot(s)
    ensures ReplaceEscapedDots(s) == s
    decreases |s|
  {
    if |s| > 0 {
      assert !EscapedDotAt(s, 0);
      forall i: nat ensures !EscapedDotAt(s[1..], i) {
        assert !EscapedDotAt(s, i + 1);
      }
      ReplaceWithoutEscapedDot(s[1..]);
    }
  }

  /** A string with an escaped dot gets strictly shorter. */
  lemma {:induction false} ReplaceShortensEscapedDot(s: string)
    requires HasEscapedDot(s)
    ensures |ReplaceEscapedDots(s)| < |s|
    decreases |s|
  {
    if !EscapedDotAt(s, 0) {
      var i: nat :| EscapedDotAt(s, i);
      assert i > 0 && EscapedDotAt(s[1..], i - 1);
      ReplaceShortensEscapedDot(s[1..]);
    }
  }

  /**
   * Apart from backslashes, the cleanup keeps every character as often as it
   * occurs: an escaped dot loses its backslash and keeps its dot.
   */
  lemma {:induction false} ReplaceKeepsOtherCharacters(s: string, c: char)
    requires c != '\\'
    ensures multiset(ReplaceEscapedDots(s))[c] == multiset(s)[c]
    decreases |s|
  {
    if |s| > 0 {
      if EscapedDotAt(s, 0) {
        ReplaceKeepsOtherCharacters(s[2..], c);
        assert s == [s[0], s[1]] + s[2..];
      } else {
        ReplaceKeepsOtherCharacters(s[1..], c);
        assert s == [s[0]] + s[1..];
      }
    }
  }

  /**
   * An escaped dot becomes a plain dot in place, and the text on either side
   * of it is cleaned on its own: the scan never joins a backslash before the
   * pair with the pair's own backslash.
   */
  lemma {:induction false} ReplaceAroundEscapedDot(a: string, b: string)
    ensures ReplaceEscapedDots(a + "\\." + b) == ReplaceEscapedDots(a) + "." + ReplaceEscapedDots(b)
    decreases |a|
  {
    if |a| == 0 {
      var s := a + "\\." + b;
      assert s == "\\." + b && s[2..] == b;
    } else if EscapedDotAt(a, 0) {
      ReplaceAroundEscapedDot(a[2..], b);
      ReplaceAroundPairStep(a, b);
    } else {
      ReplaceAroundEscapedDot(a[1..], b);
      ReplaceAroundCharStep(a, b);
    }
  }

  /** The step of `ReplaceAroundEscapedDot` when `a` starts with an escaped dot. */
  lemma ReplaceAroundPairStep(a: string, b: string)
    requires EscapedDotAt(a, 0)
    requires ReplaceEscapedDots(a[2..] + "\\." + b) == ReplaceEscapedDots(a[2..]) + "." + ReplaceEscapedDots(b)
    ensures ReplaceEscapedDots(a + "\\." + b) == ReplaceEscapedDots(a) + "." + ReplaceEscapedDots(b)
  {
    var s := a + "\\." + b;
    assert EscapedDotAt(s, 0);
    assert s[2..] == a[2..] + "\\." + b;
    var x, y := ReplaceEscapedDots(a[2..]), ReplaceEscapedDots(b);
    assert ReplaceEscapedDots(s) == "." + (x + "." + y);
    assert ReplaceEscapedDots(a) == "." + x;
    assert "." + (x + "." + y) == "." + x + "." + y;
  }

  /** The step of `ReplaceAroundEscapedDot` when `a` does not start with an escaped dot. */
  lemma ReplaceAroundCharStep(a: string, b: string)
    requires |a| > 0 && !EscapedDotAt(a, 0)
    requires ReplaceEscapedDots(a[1..] + "\\." + b) == ReplaceEscapedDots(a[1..]) + "." + ReplaceEscapedDots(b)
    ensures ReplaceEscapedDots(a + "\\." + b) == ReplaceEscapedDots(a) + "." + ReplaceEscapedDots(b)
  {
    var s := a + "\\." + b;
    assert s[0] == a[0] && s[1..] == a[1..] + "\\." + b;
    assert !EscapedDotAt(s, 0);
    var x, y := ReplaceEscapedDots(a[1..]), ReplaceEscapedDots(b);
    assert ReplaceEscapedDots(s) == [a[0]] + (x + "." + y);
    assert ReplaceEscapedDots(a) == [a[0]] + x;
    assert [a[0]] + (x + "." + y) == [a[0]] + x + "." + y;
  }

  /** The cleanup changes a string exactly when the string holds an escaped dot. */
  lemma ReplaceEscapedDotsUnchangedIff(s: string)
    ensures ReplaceEscapedDots(s) == s <==> !HasEscapedDot(s)
  {
    if HasEscapedDot(s) {
      ReplaceShortensEscapedDot(s);
    } else {
      ReplaceWithoutEscapedDot(s);
    }
  }
}
