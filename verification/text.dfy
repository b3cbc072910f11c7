/** String operations the fact plugin borrows from Python 2: an ASCII case fold standing
    in for the store's case-insensitive match of term patterns, `str.replace('  ', ' ')`, `' '.join`, `str.split(sep, 1)` and
    `str.strip()`, together with the character classes `\s` and `\W` of the `re` module. */
module Text {
  import opened Wrappers

  /** `\s` of Python 2's `re` without the unicode flag. */
  predicate IsSpace(c: char) {
    c == ' ' || c == '\t' || c == '\n' || c == '\r' || c == '\U{0B}' || c == '\U{0C}'
  }

  /** `\w` of Python 2's `re` without the unicode flag; `\W` is its complement. */
  predicate IsWordChar(c: char) {
    ('a' <= c <= 'z') || ('A' <= c <= 'Z') || ('0' <= c <= '9') || c == '_'
  }

  /** The characters `unicode.strip()` removes in Python 2.7 (Unicode 5.2 whitespace). */
  predicate IsStripSpace(c: char) {
    IsSpace(c)
    || ('\U{1C}' <= c <= '\U{1F}') || c == '\U{85}' || c == '\U{A0}'
    || c == '\U{1680}' || c == '\U{180E}' || ('\U{2000}' <= c <= '\U{200A}')
    || c == '\U{2028}' || c == '\U{2029}' || c == '\U{202F}' || c == '\U{205F}'
    || c == '\U{3000}'
  }

  /** Case fold of one character, approximating the store's case-insensitive match:
      only the ASCII capitals change. */
  function Lower(c: char): (r: char)
    ensures !('A' <= r <= 'Z')
    ensures !('A' <= c <= 'Z') ==> r == c
    ensures 'A' <= c <= 'Z' ==> r as int == c as int + 32
  {
    if 'A' <= c <= 'Z' then (c as int + 32) as char else c
  }

  /** The lookup key of a term: its case fold, character by character. */
  function Fold(s: string): (r: string)
    ensures |r| == |s|
    ensures forall i :: 0 <= i < |s| ==> r[i] == Lower(s[i])
  {
    seq(|s|, i requires 0 <= i < |s| => Lower(s[i]))
  }

  // ---------------------------------------------------------------------------
  // Double-space collapse: `s.replace('  ', ' ')`

  /** True when `s` holds two adjacent spaces starting at `i`. */
  predicate DoubleSpaceAt(s: string, i: int) {
    0 <= i && i + 1 < |s| && s[i] == ' ' && s[i + 1] == ' '
  }

  predicate HasDoubleSpace(s: string) {
    exists i :: 0 <= i < |s| && DoubleSpaceAt(s, i)
  }

  predicate HasTripleSpace(s: string) {
    exists i :: 0 <= i < |s| && DoubleSpaceAt(s, i) && DoubleSpaceAt(s, i + 1)
  }

  /** Python's `s.replace('  ', ' ')`: a single left-to-right scan that replaces each
      non-overlapping pair of spaces by one space. Runs of three or more spaces are
      therefore only shortened, not reduced to one. */
  function Collapse(s: string): (r: string)
    ensures |r| <= |s|
    ensures |s| > 0 ==> |r| > 0 && r[0] == s[0]
    decreases |s|
  {
    if |s| < 2 then s
    else if s[0] == ' ' && s[1] == ' ' then [' '] + Collapse(s[2..])
    else [s[0]] + Collapse(s[1..])
  }

  /** A string with no double space is returned unchanged, and one with a double space
      is made strictly shorter; so `Collapse` fixes exactly the strings without "  ". */
  lemma {:induction false} CollapseFixesExactly(s: string)
    ensures Collapse(s) == s <==> !HasDoubleSpace(s)
    ensures HasDoubleSpace(s) ==> |Collapse(s)| < |s|
    decreases |s|
  {
    if |s| < 2 {
      assert !HasDoubleSpace(s) by {
        forall i | DoubleSpaceAt(s, i) ensures false { }
      }
    } else if s[0] == ' ' && s[1] == ' ' {
      assert DoubleSpaceAt(s, 0);
    } else {
      var t := s[1..];
      CollapseFixesExactly(t);
      assert HasDoubleSpace(s) <==> HasDoubleSpace(t) by {
        forall i | DoubleSpaceAt(s, i) ensures DoubleSpaceAt(t, i - 1) {
          assert i != 0;
        }
        forall i | DoubleSpaceAt(t, i) ensures DoubleSpaceAt(s, i + 1) { }
      }
      if Collapse(s) == s {
        assert Collapse(t) == t by {
          assert Collapse(s)[1..] == Collapse(t);
        }
      }
    }
  }

  /** The scan does not overlap pairs: three spaces become two. */
  lemma CollapseThreeSpaces()
    ensures Collapse("   ") == "  "
    ensures Collapse("a   b") == "a  b"
  {
    assert Collapse(" ") == " ";
    assert Collapse(" b") == " b" by {
      assert Collapse("b") == "b";
    }
    assert Collapse("  b") == " " + Collapse("b");
    assert Collapse("   b") == " " + Collapse(" b");
  }

  /** A word or phrase with single spaces inside and none at either end. */
  predicate SingleSpaced(s: string) {
    |s| > 0 && s[0] != ' ' && s[|s| - 1] != ' ' && !HasDoubleSpace(s)
  }

  /** Gluing two texts without a double space creates one only where a space meets a space. */
  lemma NoDoubleSpaceConcat(x: string, y: string)
    requires !HasDoubleSpace(x) && !HasDoubleSpace(y)
    requires |x| == 0 || |y| == 0 || x[|x| - 1] != ' ' || y[0] != ' '
    ensures !HasDoubleSpace(x + y)
  {
    var s := x + y;
    forall i | 0 <= i < |s| && DoubleSpaceAt(s, i) ensures false {
      if i + 1 < |x| {
        assert DoubleSpaceAt(x, i);
      } else if i >= |x| {
        assert DoubleSpaceAt(y, i - |x|);
      }
    }
  }

  /** The declaration sentence: subject, copula and a remainder that the grammar captured
      with its leading space, joined by spaces, collapse to the three parts separated by
      single spaces, and the result is single-spaced. */
  lemma CollapseDeclarationSentence(subject: string, copula: string, rest: string)
    requires SingleSpaced(subject) && SingleSpaced(copula) && SingleSpaced(rest)
    ensures Collapse(subject + " " + copula + " " + (" " + rest)) == subject + " " + copula + " " + rest
    ensures SingleSpaced(subject + " " + copula + " " + rest)
  {
    var p := subject + " " + copula;
    NoDoubleSpaceConcat(subject, " ");
    NoDoubleSpaceConcat(subject + " ", copula);
    assert subject + " " + copula + " " + (" " + rest) == p + ("  " + rest);
    CollapseAfterSingleSpaced(p, "  " + rest);
    assert ("  " + rest)[2..] == rest;
    CollapseFixesExactly(rest);
    NoDoubleSpaceConcat(p, " ");
    NoDoubleSpaceConcat(p + " ", rest);
  }

  /** Dropping the first character cannot create a double space. */
  lemma NoDoubleSpaceTail(a: string)
    requires |a| > 0 && !HasDoubleSpace(a)
    ensures !HasDoubleSpace(a[1..])
  {
    var t := a[1..];
    forall i | 0 <= i < |t| && DoubleSpaceAt(t, i) ensures false {
      assert DoubleSpaceAt(a, i + 1);
    }
  }

  /** A single-spaced prefix that does not end in a space passes through the collapse
      untouched: the scan resumes right after it. */
  lemma {:induction false} CollapseAfterSingleSpaced(a: string, b: string)
    requires !HasDoubleSpace(a)
    requires |a| == 0 || a[|a| - 1] != ' '
    ensures Collapse(a + b) == a + Collapse(b)
    decreases |a|
  {
    if |a| == 0 {
      assert a + b == b;
    } else {
      var s := a + b;
      var t := a[1..];
      assert s[0] == a[0] && s[1..] == t + b;
      NoDoubleSpaceTail(a);
      assert |t| == 0 || t[|t| - 1] == a[|a| - 1];
      CollapseAfterSingleSpaced(t, b);
      assert a == [a[0]] + t;
      if |s| >= 2 {
        assert !(s[0] == ' ' && s[1] == ' ') by {
          if |a| >= 2 {
            assert !DoubleSpaceAt(a, 0);
          }
        }
        calc {
          Collapse(s);
          [a[0]] + Collapse(t + b);
          [a[0]] + (t + Collapse(b));
          ([a[0]] + t) + Collapse(b);
          a + Collapse(b);
        }
      }
    }
  }

  /** When no run of three spaces occurs, the result is single-spaced throughout. */
  lemma {:induction false} CollapseSingleSpaces(s: string)
    requires !HasTripleSpace(s)
    ensures !HasDoubleSpace(Collapse(s))
    decreases |s|
  {
    if |s| < 2 {
      CollapseFixesExactly(s);
    } else if s[0] == ' ' && s[1] == ' ' {
      var t := s[2..];
      assert !HasTripleSpace(t) by {
        forall i | DoubleSpaceAt(t, i) && DoubleSpaceAt(t, i + 1) ensures false {
          assert DoubleSpaceAt(s, i + 2) && DoubleSpaceAt(s, i + 3);
        }
      }
      CollapseSingleSpaces(t);
      var c := Collapse(t);
      assert |t| > 0 ==> t[0] != ' ' by {
        if |t| > 0 && t[0] == ' ' {
          assert DoubleSpaceAt(s, 0) && DoubleSpaceAt(s, 1);
        }
      }
      var r := [' '] + c;
      forall i | DoubleSpaceAt(r, i) ensures false {
        if i > 0 {
          assert DoubleSpaceAt(c, i - 1);
        }
      }
    } else {
      var t := s[1..];
      assert !HasTripleSpace(t) by {
        forall i | DoubleSpaceAt(t, i) && DoubleSpaceAt(t, i + 1) ensures false {
          assert DoubleSpaceAt(s, i + 1) && DoubleSpaceAt(s, i + 2);
        }
      }
      CollapseSingleSpaces(t);
      var c := Collapse(t);
      var r := [s[0]] + c;
      forall i | DoubleSpaceAt(r, i) ensures false {
        if i > 0 {
          assert DoubleSpaceAt(c, i - 1);
        }
      }
    }
  }

  // ---------------------------------------------------------------------------
  // `sep.join(parts)`

  /** Python's `sep.join(parts)`: the parts in order with the separator between
      neighbours. */
  function Join(parts: seq<string>, sep: string): (r: string)
    ensures |parts| == 0 ==> r == ""
    ensures |parts| == 1 ==> r == parts[0]
    ensures |parts| > 0 ==> parts[0] <= r
    decreases |parts|
  {
    if |parts| == 0 then ""
    else if |parts| == 1 then parts[0]
    else parts[0] + sep + Join(parts[1..], sep)
  }

  /** Joining two non-empty lists of parts is joining each and gluing them with the
      separator. */
  lemma {:induction false} JoinConcat(p: seq<string>, q: seq<string>, sep: string)
    requires |p| > 0 && |q| > 0
    ensures Join(p + q, sep) == Join(p, sep) + sep + Join(q, sep)
    decreases |p|
  {
    var pq := p + q;
    if |p| == 1 {
      assert pq[1..] == q;
    } else {
      assert pq[1..] == p[1..] + q;
      JoinConcat(p[1..], q, sep);
    }
  }

  /** A join ends with its last part, as it begins with its first. */
  lemma {:induction false} JoinEnds(parts: seq<string>, sep: string)
    requires |parts| > 0
    ensures |parts[|parts| - 1]| <= |Join(parts, sep)|
    ensures Join(parts, sep)[|Join(parts, sep)| - |parts[|parts| - 1]|..] == parts[|parts| - 1]
    decreases |parts|
  {
    if |parts| > 1 {
      JoinEnds(parts[1..], sep);
      var j := Join(parts, sep);
      var t := Join(parts[1..], sep);
      assert j == parts[0] + sep + t;
      assert parts[1..][|parts[1..]| - 1] == parts[|parts| - 1];
      assert j[|j| - |t|..] == t;
    }
  }

  /** Joining splits at any inner element: the pieces left and right of position `i`
      are joined separately and glued with the separator on either side of `parts[i]`. */
  lemma JoinAround(parts: seq<string>, sep: string, i: int)
    requires 0 < i < |parts| - 1
    ensures Join(parts, sep) == Join(parts[..i], sep) + sep + parts[i] + sep + Join(parts[i + 1..], sep)
  {
    assert parts == parts[..i] + parts[i..];
    JoinConcat(parts[..i], parts[i..], sep);
    assert parts[i..][1..] == parts[i + 1..];
  }

  // ---------------------------------------------------------------------------
  // `s.split(sep, 1)`

  /** `pat` occurs in `s` starting at index `i`. */
  predicate OccursAt(s: string, pat: string, i: int) {
    0 <= i && i + |pat| <= |s| && s[i..i + |pat|] == pat
  }

  predicate Occurs(s: string, pat: string) {
    exists i :: 0 <= i <= |s| && OccursAt(s, pat, i)
  }

  /** `pat` first occurs in `s` at index `i`. */
  predicate FirstAt(s: string, pat: string, i: int) {
    OccursAt(s, pat, i) && forall k :: 0 <= k < i ==> !OccursAt(s, pat, k)
  }

  /** Index of the first occurrence of `pat` in `s` at or after `from`. */
  function IndexFrom(s: string, pat: string, from: nat): (r: Option<nat>)
    requires from <= |s|
    ensures r.Some? ==> from <= r.value && OccursAt(s, pat, r.value)
    ensures r.Some? ==> forall k :: from <= k < r.value ==> !OccursAt(s, pat, k)
    ensures r.None? ==> forall k :: from <= k ==> !OccursAt(s, pat, k)
    decreases |s| - from
  {
    if from + |pat| > |s| then None
    else if s[from..from + |pat|] == pat then Some(from)
    else IndexFrom(s, pat, from + 1)
  }

  /** Python's `s.split(sep, 1)` for a non-empty separator: the text before the first
      occurrence of `sep` and the text after it, or the whole string alone when `sep`
      does not occur. */
  function SplitOnce(s: string, sep: string): (r: seq<string>)
    requires |sep| > 0
    ensures |r| == 1 <==> !Occurs(s, sep)
    ensures |r| == 1 || |r| == 2
    ensures Join(r, sep) == s
    ensures |r| == 2 ==> !Occurs(r[0], sep)
    ensures |r| == 2 ==> FirstAt(s, sep, |r[0]|)
  {
    match IndexFrom(s, sep, 0)
    case None => [s]
    case Some(i) =>
      var before := s[..i];
      assert s == before + sep + s[i + |sep|..];
      assert !Occurs(before, sep) by {
        forall k | OccursAt(before, sep, k) ensures false {
          assert s[k..k + |sep|] == before[k..k + |sep|];
          assert OccursAt(s, sep, k);
        }
      }
      [before, s[i + |sep|..]]
  }

  // ---------------------------------------------------------------------------
  // `s.strip()`

  /** The left end of `s.strip()`: the first index at or after `i` that is not
      whitespace, or `|s|`. */
  function StripStart(s: string, i: nat): (a: nat)
    requires i <= |s|
    ensures i <= a <= |s|
    ensures forall k :: i <= k < a ==> IsStripSpace(s[k])
    ensures a < |s| ==> !IsStripSpace(s[a])
    decreases |s| - i
  {
    if i < |s| && IsStripSpace(s[i]) then StripStart(s, i + 1) else i
  }

  /** The right end of `s.strip()`: scanning down from `e`, the first end above `a`
      whose last character is not whitespace, or `a`. */
  function StripEnd(s: string, a: nat, e: nat): (b: nat)
    requires a <= e <= |s|
    ensures a <= b <= e
    ensures forall k :: b <= k < e ==> IsStripSpace(s[k])
    ensures b > a ==> !IsStripSpace(s[b - 1])
    decreases e
  {
    if e > a && IsStripSpace(s[e - 1]) then StripEnd(s, a, e - 1) else e
  }

  /** `r` sits at offset `i` of `s` with nothing but whitespace before and after it. */
  predicate StrippedAt(s: string, r: string, i: int) {
    && OccursAt(s, r, i)
    && (forall k :: 0 <= k < i ==> IsStripSpace(s[k]))
    && (forall k :: i + |r| <= k < |s| ==> IsStripSpace(s[k]))
  }

  /** Python's `s.strip()`: the infix of `s` left after dropping whitespace from both
      ends, which itself neither starts nor ends with whitespace. */
  function Strip(s: string): (r: string)
    ensures exists i :: 0 <= i <= |s| && StrippedAt(s, r, i)
    ensures |r| > 0 ==> !IsStripSpace(r[0]) && !IsStripSpace(r[|r| - 1])
  {
    var a := StripStart(s, 0);
    var b := StripEnd(s, a, |s|);
    var r := s[a..b];
    assert |r| == b - a && s[a..a + |r|] == r;
    assert |r| > 0 ==> r[0] == s[a] && r[|r| - 1] == s[b - 1];
    assert StrippedAt(s, r, a);
    r
  }

  /** Stripping keeps exactly the text between the leading and trailing whitespace. */
  lemma StripPadded(lead: string, core: string, trail: string)
    requires forall k :: 0 <= k < |lead| ==> IsStripSpace(lead[k])
    requires forall k :: 0 <= k < |trail| ==> IsStripSpace(trail[k])
    requires |core| > 0 && !IsStripSpace(core[0]) && !IsStripSpace(core[|core| - 1])
    ensures Strip(lead + core + trail) == core
  {
    var s := lead + core + trail;
    var a := |lead|;
    var b := |lead| + |core|;
    StripStartPadded(s, 0, a);
    StripEndPadded(s, a, b, |s|);
    assert s[a..b] == core;
  }

  /** From any index inside a whitespace run that ends at `a` before a non-space, the
      scan stops at `a`. */
  lemma {:induction false} StripStartPadded(s: string, i: nat, a: nat)
    requires i <= a < |s|
    requires forall k :: i <= k < a ==> IsStripSpace(s[k])
    requires !IsStripSpace(s[a])
    ensures StripStart(s, i) == a
    decreases a - i
  {
    if i < a {
      StripStartPadded(s, i + 1, a);
    }
  }

  /** Scanning down from `e` through whitespace that starts at `b`, after a non-space,
      the scan stops at `b`. */
  lemma {:induction false} StripEndPadded(s: string, a: nat, b: nat, e: nat)
    requires a < b <= e <= |s|
    requires forall k :: b <= k < e ==> IsStripSpace(s[k])
    requires !IsStripSpace(s[b - 1])
    ensures StripEnd(s, a, e) == b
    decreases e
  {
    if b < e {
      StripEndPadded(s, a, b, e - 1);
    }
  }
}
