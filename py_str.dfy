/** The handful of Python `str` operations the list tools rely on, over strings as
    sequences of characters: `startswith`, `endswith`, `removeprefix`, `strip`,
    `lstrip`, `rstrip`, `lower` (ASCII only), `in`, `replace` (all occurrences and
    first occurrence only) and Python's ordering of strings. */
module PyStr {

  datatype Option<+T> = None | Some(value: T)

  /** The characters for which Python's `str.isspace()` holds; `rstrip()` with no
      argument removes exactly these from the end of a string. */
  const Whitespace: set<char> :=
    {'\t', '\n', '\U{000b}', '\U{000c}', '\r', '\U{001c}', '\U{001d}', '\U{001e}', '\U{001f}', ' ',
     '\U{0085}', '\U{00a0}', '\U{1680}', '\U{2000}', '\U{2001}', '\U{2002}', '\U{2003}', '\U{2004}',
     '\U{2005}', '\U{2006}', '\U{2007}', '\U{2008}', '\U{2009}', '\U{200a}', '\U{2028}', '\U{2029}',
     '\U{202f}', '\U{205f}', '\U{3000}'}

  predicate StartsWith(s: string, p: string) {
    |p| <= |s| && s[..|p|] == p
  }

  predicate EndsWith(s: string, p: string) {
    |p| <= |s| && s[|s| - |p|..] == p
  }

  /** The string is empty or its last character is not whitespace. */
  predicate NoTrailingSpace(s: string) {
    s == [] || s[|s| - 1] !in Whitespace
  }

  /** `s.removeprefix(p)` */
  function RemovePrefix(s: string, p: string): (r: string)
    ensures StartsWith(s, p) ==> s == p + r
    ensures !StartsWith(s, p) ==> r == s
  {
    if StartsWith(s, p) then s[|p|..] else s
  }

  /** The first index at or after `i` whose character is not one of `chars`, or `|s|`. */
  function LeadingEnd(s: string, chars: set<char>, i: nat): (j: nat)
    requires i <= |s|
    ensures i <= j <= |s|
    ensures forall k :: i <= k < j ==> s[k] in chars
    ensures j == |s| || s[j] !in chars
    decreases |s| - i
  {
    if i < |s| && s[i] in chars then LeadingEnd(s, chars, i + 1) else i
  }

  /** The least index from which every character before `j` is one of `chars`. */
  function TrailingStart(s: string, chars: set<char>, j: nat): (i: nat)
    requires j <= |s|
    ensures i <= j
    ensures forall k :: i <= k < j ==> s[k] in chars
    ensures i == 0 || s[i - 1] !in chars
    decreases j
  {
    if j > 0 && s[j - 1] in chars then TrailingStart(s, chars, j - 1) else j
  }

  /** `s.lstrip(chars)`: the longest suffix of `s` that does not start with one of `chars`. */
  function LStripChars(s: string, chars: set<char>): (r: string)
    ensures |r| <= |s| && r == s[|s| - |r|..]
    ensures forall i :: 0 <= i < |s| - |r| ==> s[i] in chars
    ensures r == [] || r[0] !in chars
  {
    s[LeadingEnd(s, chars, 0)..]
  }

  /** `s.rstrip(chars)`: the longest prefix of `s` that does not end with one of `chars`. */
  function RStripChars(s: string, chars: set<char>): (r: string)
    ensures |r| <= |s| && r == s[..|r|]
    ensures forall i :: |r| <= i < |s| ==> s[i] in chars
    ensures r == [] || r[|r| - 1] !in chars
  {
    s[..TrailingStart(s, chars, |s|)]
  }

  /** `s.strip(chars)`: both ends trimmed of `chars`; what remains is a slice of `s`. */
  function StripChars(s: string, chars: set<char>): (r: string)
    ensures var k := |s| - |LStripChars(s, chars)|;
            k + |r| <= |s| && r == s[k..k + |r|] &&
            (forall i :: 0 <= i < k ==> s[i] in chars) &&
            (forall i :: k + |r| <= i < |s| ==> s[i] in chars)
    ensures r == [] || (r[0] !in chars && r[|r| - 1] !in chars)
  {
    RStripChars(LStripChars(s, chars), chars)
  }

  /** `s.rstrip()` */
  function RStripSpace(s: string): (r: string)
    ensures |r| <= |s| && r == s[..|r|]
    ensures NoTrailingSpace(r)
    ensures forall i :: |r| <= i < |s| ==> s[i] in Whitespace
  {
    RStripChars(s, Whitespace)
  }

  /** `rstrip()` keeps a prefix whose last character is not whitespace. */
  lemma RStripKeepsPrefix(s: string, p: string)
    requires StartsWith(s, p) && NoTrailingSpace(p)
    ensures StartsWith(RStripSpace(s), p)
  {
  }

  /** `(c + "\n").rstrip() == c` when `c` has no trailing whitespace. */
  lemma RStripNewline(c: string)
    requires NoTrailingSpace(c)
    ensures RStripSpace(c + "\n") == c
  {
    var s := c + "\n";
    assert s[..|s| - 1] == c;
  }

  /** `(u + "\n").rstrip() == u.rstrip()`: the newline is whitespace like any other. */
  lemma RStripDropsNewline(u: string)
    ensures RStripSpace(u + "\n") == RStripSpace(u)
  {
    var s := u + "\n";
    assert s[|u|] in Whitespace;
    TrailingStartSnoc(u, '\n', Whitespace, |u|);
    var k := TrailingStart(u, Whitespace, |u|);
    assert s[..k] == u[..k];
  }

  lemma {:induction false} TrailingStartSnoc(s: string, c: char, chars: set<char>, j: nat)
    requires j <= |s|
    ensures TrailingStart(s + [c], chars, j) == TrailingStart(s, chars, j)
    decreases j
  {
    if j > 0 {
      assert (s + [c])[j - 1] == s[j - 1];
      TrailingStartSnoc(s, c, chars, j - 1);
    }
  }

  /** `rstrip()` is idempotent. */
  lemma RStripTwice(s: string)
    ensures RStripSpace(RStripSpace(s)) == RStripSpace(s)
  {
  }

  function LowerChar(c: char): char {
    if 'A' <= c <= 'Z' then (c as int + 32) as char else c
  }

  /** `s.lower()`, restricted to ASCII letters. */
  function Lower(s: string): (r: string)
    ensures |r| == |s|
    ensures forall i :: 0 <= i < |s| ==> r[i] == LowerChar(s[i])
  {
    seq(|s|, i requires 0 <= i < |s| => LowerChar(s[i]))
  }

  /** `p` occurs in `s` at index `j`. */
  predicate OccursAt(s: string, p: string, j: int) {
    0 <= j && j + |p| <= |s| && s[j..j + |p|] == p
  }

  lemma OccursAtShift(s: string, p: string, j: int)
    requires |s| > 0 && j >= 1
    ensures OccursAt(s, p, j) <==> OccursAt(s[1..], p, j - 1)
  {
    if j + |p| <= |s| {
      assert s[j..j + |p|] == s[1..][j - 1..j - 1 + |p|];
    }
  }

  /** The index of the first occurrence of `p` in `s` (Python's `s.find(p)`, with
      `None` for -1). */
  function Find(s: string, p: string): (r: Option<nat>)
    ensures r.Some? ==> OccursAt(s, p, r.value)
    ensures forall j :: (r.None? || j < r.value) ==> !OccursAt(s, p, j)
    decreases |s|
  {
    if StartsWith(s, p) then
      assert s[..|p|] == s[0..|p|];
      Some(0)
    else if |s| == 0 then None
    else
      var rest := Find(s[1..], p);
      assert !OccursAt(s, p, 0) by { if |p| <= |s| { assert s[..|p|] == s[0..|p|]; } }
      assert forall j :: j >= 1 ==> (OccursAt(s, p, j) <==> OccursAt(s[1..], p, j - 1)) by {
        forall j | j >= 1 ensures OccursAt(s, p, j) <==> OccursAt(s[1..], p, j - 1) {
          OccursAtShift(s, p, j);
        }
      }
      match rest
      case None => None
      case Some(k) => Some(k + 1)
  }

  /** Python's `p in s`. */
  predicate Contains(s: string, p: string) {
    Find(s, p).Some?
  }

  /** `s.replace(p, rep, 1)`: only the first occurrence of `p` is replaced. */
  function ReplaceFirst(s: string, p: string, rep: string): string {
    match Find(s, p)
    case None => s
    case Some(k) => s[..k] + rep + s[k + |p|..]
  }

  /** Without an occurrence the string is unchanged; otherwise the occurrence that
      is replaced is the leftmost one. */
  lemma ReplaceFirstLeftmost(s: string, p: string, rep: string)
    ensures (forall j :: !OccursAt(s, p, j)) ==> ReplaceFirst(s, p, rep) == s
    ensures forall k :: OccursAt(s, p, k) && (forall j :: 0 <= j < k ==> !OccursAt(s, p, j)) ==>
              ReplaceFirst(s, p, rep) == s[..k] + rep + s[k + |p|..]
  {
    match Find(s, p)
    case None =>
    case Some(f) =>
      forall k | OccursAt(s, p, k) && (forall j :: 0 <= j < k ==> !OccursAt(s, p, j))
        ensures k == f
      {
      }
  }

  /** A string that starts with `p` has that occurrence replaced. */
  lemma ReplaceFirstAtStart(s: string, p: string, rep: string)
    requires StartsWith(s, p)
    ensures ReplaceFirst(s, p, rep) == rep + s[|p|..]
  {
    assert Find(s, p) == Some(0);
    assert s[..0] + rep == rep;
  }

  /** The occurrence at the front of `p + rest` is the one replaced. */
  lemma ReplaceFirstOfPrefix(p: string, rest: string, rep: string)
    ensures ReplaceFirst(p + rest, p, rep) == rep + rest
  {
    var s := p + rest;
    assert s[..|p|] == p;
    ReplaceFirstAtStart(s, p, rep);
    assert s[|p|..] == rest;
  }

  /** `s.replace(p, rep)`: every occurrence, scanning left to right without overlap;
      an empty `p` matches before every character and at the end. */
  function ReplaceAll(s: string, p: string, rep: string): string
    decreases |s|
  {
    if |p| == 0 then
      (if |s| == 0 then rep else rep + [s[0]] + ReplaceAll(s[1..], p, rep))
    else if StartsWith(s, p) then rep + ReplaceAll(s[|p|..], p, rep)
    else if |s| == 0 then s
    else [s[0]] + ReplaceAll(s[1..], p, rep)
  }

  /** Without an occurrence of a non-empty pattern, `replace` changes nothing. */
  lemma {:induction false} ReplaceAllAbsent(s: string, p: string, rep: string)
    requires |p| > 0 && Find(s, p).None?
    ensures ReplaceAll(s, p, rep) == s
    decreases |s|
  {
    if |s| > 0 {
      assert !StartsWith(s, p) by {
        assert !OccursAt(s, p, 0);
        if |p| <= |s| {
          assert s[..|p|] == s[0..|p|];
        }
      }
      ReplaceAllAbsent(s[1..], p, rep);
      assert [s[0]] + s[1..] == s;
    }
  }

  /** A character that does not occur in the pattern cannot take part in a match,
      so appending it commutes with `replace`. */
  lemma {:induction false} ReplaceAllSnoc(s: string, p: string, rep: string, c: char)
    requires |p| > 0 && c !in p
    ensures ReplaceAll(s + [c], p, rep) == ReplaceAll(s, p, rep) + [c]
    decreases |s|
  {
    if StartsWith(s, p) {
      ReplaceAllSnocAtStart(s, p, rep, c);
      ReplaceAllSnoc(s[|p|..], p, rep, c);
      AppendAssoc(rep, ReplaceAll(s[|p|..], p, rep), [c]);
    } else if |s| == 0 {
      ReplaceAllSnocEmpty(p, rep, c);
    } else {
      ReplaceAllSnocSkip(s, p, rep, c);
      ReplaceAllSnoc(s[1..], p, rep, c);
      AppendAssoc([s[0]], ReplaceAll(s[1..], p, rep), [c]);
    }
  }

  lemma ReplaceAllSnocAtStart(s: string, p: string, rep: string, c: char)
    requires |p| > 0 && StartsWith(s, p)
    ensures ReplaceAll(s + [c], p, rep) == rep + ReplaceAll(s[|p|..] + [c], p, rep)
    ensures ReplaceAll(s, p, rep) == rep + ReplaceAll(s[|p|..], p, rep)
  {
    var t := s + [c];
    assert t[..|p|] == s[..|p|];
    assert t[|p|..] == s[|p|..] + [c];
    ReplaceAllAtStart(t, p, rep);
    ReplaceAllAtStart(s, p, rep);
  }

  lemma ReplaceAllSnocEmpty(p: string, rep: string, c: char)
    requires |p| > 0 && c !in p
    ensures ReplaceAll([] + [c], p, rep) == ReplaceAll([], p, rep) + [c]
  {
    assert [] + [c] == [c];
    assert !StartsWith([c], p) by {
      if |p| == 1 {
        assert p[0] != c;
      }
    }
    ReplaceAllSkip([c], p, rep);
    assert [c][1..] == [];
  }

  lemma ReplaceAllSnocSkip(s: string, p: string, rep: string, c: char)
    requires |p| > 0 && c !in p && |s| > 0 && !StartsWith(s, p)
    ensures ReplaceAll(s + [c], p, rep) == [s[0]] + ReplaceAll(s[1..] + [c], p, rep)
    ensures ReplaceAll(s, p, rep) == [s[0]] + ReplaceAll(s[1..], p, rep)
  {
    var t := s + [c];
    assert !StartsWith(t, p) by {
      if |p| <= |s| {
        assert s[..|p|] == t[..|p|];
      } else if |p| == |s| + 1 {
        assert t[..|p|][|s|] == c;
      }
    }
    assert t[0] == s[0] && t[1..] == s[1..] + [c];
    ReplaceAllSkip(t, p, rep);
    ReplaceAllSkip(s, p, rep);
  }

  /** Concatenation is associative. */
  lemma AppendAssoc<T>(a: seq<T>, b: seq<T>, c: seq<T>)
    ensures a + (b + c) == a + b + c
  {
  }

  /** A pattern whose first character does not occur in `s` does not occur in `s`. */
  lemma AbsentFirstChar(s: string, p: string)
    requires |p| > 0 && p[0] !in s
    ensures Find(s, p).None?
  {
  }

  /** `replace` at a string that starts with the pattern. */
  lemma ReplaceAllAtStart(s: string, p: string, rep: string)
    requires |p| > 0 && StartsWith(s, p)
    ensures ReplaceAll(s, p, rep) == rep + ReplaceAll(s[|p|..], p, rep)
  {
  }

  /** `replace` at a string that does not start with the pattern. */
  lemma ReplaceAllSkip(s: string, p: string, rep: string)
    requires |p| > 0 && |s| > 0 && !StartsWith(s, p)
    ensures ReplaceAll(s, p, rep) == [s[0]] + ReplaceAll(s[1..], p, rep)
  {
  }

  /** `replace` on a string holding the pattern once, with the pattern's first
      character nowhere else, substitutes exactly that occurrence. */
  lemma {:induction false} ReplaceAllSingle(a: string, p: string, b: string, rep: string)
    requires |p| > 0 && p[0] !in a && p[0] !in b
    ensures ReplaceAll(a + p + b, p, rep) == a + rep + b
    decreases |a|
  {
    if |a| == 0 {
      EmptyLeft(a, p);
      EmptyLeft(a, rep);
      ReplaceAllPatternFirst(p, b, rep);
    } else {
      ReplaceAllOtherFirst(a, p, b, rep);
      assert p[0] !in a[1..];
      ReplaceAllSingle(a[1..], p, b, rep);
      ConsAppend(a, rep, b);
    }
  }

  lemma EmptyLeft<T>(a: seq<T>, x: seq<T>)
    requires |a| == 0
    ensures a + x == x
  {
  }

  lemma ReplaceAllPatternFirst(p: string, b: string, rep: string)
    requires |p| > 0 && p[0] !in b
    ensures ReplaceAll(p + b, p, rep) == rep + b
  {
    assert ReplaceAll(p + b, p, rep) == rep + ReplaceAll(b, p, rep) by {
      var s := p + b;
      assert s[..|p|] == p;
      ReplaceAllAtStart(s, p, rep);
      assert s[|p|..] == b;
    }
    assert ReplaceAll(b, p, rep) == b by {
      AbsentFirstChar(b, p);
      ReplaceAllAbsent(b, p, rep);
    }
  }

  lemma ReplaceAllOtherFirst(a: string, p: string, b: string, rep: string)
    requires |a| > 0 && |p| > 0 && p[0] != a[0]
    ensures ReplaceAll(a + p + b, p, rep) == [a[0]] + ReplaceAll(a[1..] + p + b, p, rep)
  {
    var s := a + p + b;
    assert s[0] == a[0];
    assert !StartsWith(s, p) by {
      if |p| <= |s| {
        assert s[..|p|][0] == a[0];
      }
    }
    ReplaceAllSkip(s, p, rep);
    assert s[1..] == a[1..] + p + b;
  }

  /** Splitting off the first character of the left operand of a concatenation. */
  lemma ConsAppend(a: string, c: string, d: string)
    requires |a| > 0
    ensures [a[0]] + (a[1..] + c + d) == a + c + d
  {
    assert [a[0]] + a[1..] == a;
    assert [a[0]] + (a[1..] + c + d) == ([a[0]] + a[1..]) + c + d;
  }

  /** `rstrip()` leaves a string without trailing whitespace as it is. */
  lemma RStripNoTrailingSpace(s: string)
    requires NoTrailingSpace(s)
    ensures RStripSpace(s) == s
  {
    assert TrailingStart(s, Whitespace, |s|) == |s|;
  }

  /** Python's `<` on strings: lexicographic by code point, a proper prefix first. */
  predicate LexLess(a: string, b: string)
    decreases |a|
  {
    if |a| == 0 then |b| > 0
    else if |b| == 0 then false
    else if a[0] != b[0] then a[0] < b[0]
    else LexLess(a[1..], b[1..])
  }

  lemma {:induction false} LexLessIrreflexive(a: string)
    ensures !LexLess(a, a)
    decreases |a|
  {
    if |a| > 0 { LexLessIrreflexive(a[1..]); }
  }

  lemma {:induction false} LexLessTransitive(a: string, b: string, c: string)
    requires LexLess(a, b) && LexLess(b, c)
    ensures LexLess(a, c)
    decreases |a|
  {
    if |a| > 0 && a[0] == b[0] && b[0] == c[0] {
      LexLessTransitive(a[1..], b[1..], c[1..]);
    }
  }

  lemma {:induction false} LexLessTotal(a: string, b: string)
    ensures a == b || LexLess(a, b) || LexLess(b, a)
    decreases |a|
  {
    if |a| > 0 && |b| > 0 && a[0] == b[0] {
      LexLessTotal(a[1..], b[1..]);
      if a[1..] == b[1..] {
        assert a == [a[0]] + a[1..] && b == [b[0]] + b[1..];
      }
    }
  }

  lemma LexLessAsymmetric(a: string, b: string)
    ensures !(LexLess(a, b) && LexLess(b, a))
  {
    if LexLess(a, b) && LexLess(b, a) {
      LexLessTransitive(a, b, a);
      LexLessIrreflexive(a);
    }
  }
}
