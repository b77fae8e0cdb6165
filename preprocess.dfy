/**
 * Text normalisation of the category/market descriptions (`clean_text`) and
 * the case-insensitive column lookup (`_safe_col`) of src/preprocess.py.
 *
 * Characters are Dafny `char`s. Lower-casing is modelled for ASCII letters
 * only; whitespace is the set of characters Python's `str.isspace` (and so
 * the regular expression class `\s` and `str.strip`) accepts.
 */
module Preprocess {
  import opened Wrappers

  /** Python whitespace: what `\s` matches and `strip()` removes. */
  predicate IsSpace(c: char)
  {
    var n := c as int;
    n == 0x20 || 0x09 <= n <= 0x0D || 0x1C <= n <= 0x1F || n == 0x85 || n == 0xA0
    || n == 0x1680 || 0x2000 <= n <= 0x200A || n == 0x2028 || n == 0x2029
    || n == 0x202F || n == 0x205F || n == 0x3000
  }

  /** The characters the scrubbing step lets through besides whitespace: `[a-z0-9\-\+]`. */
  predicate IsKept(c: char)
  {
    'a' <= c <= 'z' || '0' <= c <= '9' || c == '-' || c == '+'
  }

  function LowerChar(c: char): char
  {
    if 'A' <= c <= 'Z' then ((c as int) - ('A' as int) + ('a' as int)) as char else c
  }

  /** `s.lower()` */
  function Lower(s: string): string
  {
    seq(|s|, i requires 0 <= i < |s| => LowerChar(s[i]))
  }

  /** `s.replace(from, to)` for a one-character pattern and replacement. */
  function Replace(s: string, from: char, to: char): string
  {
    seq(|s|, i requires 0 <= i < |s| => if s[i] == from then to else s[i])
  }

  /** `re.sub(r"[^a-z0-9\s\-\+]", " ", s)` */
  function Scrub(s: string): string
  {
    seq(|s|, i requires 0 <= i < |s| => if IsKept(s[i]) || IsSpace(s[i]) then s[i] else ' ')
  }

  /**
   * `re.sub(r"\s+", " ", s)`: in a run of whitespace every character but the
   * last vanishes, and the last becomes a single space.
   */
  function Collapse(s: string): (r: string)
    ensures s != [] ==> r != [] && r[0] == (if IsSpace(s[0]) then ' ' else s[0])
  {
    if s == [] then []
    else if IsSpace(s[0]) && |s| > 1 && IsSpace(s[1]) then Collapse(s[1..])
    else if IsSpace(s[0]) then [' '] + Collapse(s[1..])
    else [s[0]] + Collapse(s[1..])
  }

  /** The number of whitespace characters s starts with. */
  function LeadingSpace(s: string): (n: nat)
    ensures n <= |s| && (n < |s| ==> !IsSpace(s[n]))
  {
    if s != [] && IsSpace(s[0]) then 1 + LeadingSpace(s[1..]) else 0
  }

  /** The number of whitespace characters s ends with. */
  function TrailingSpace(s: string): (n: nat)
    ensures n <= |s| && (n < |s| ==> !IsSpace(s[|s| - 1 - n]))
  {
    if s != [] && IsSpace(s[|s| - 1]) then 1 + TrailingSpace(s[..|s| - 1]) else 0
  }

  /** What the trims drop is whitespace. */
  lemma {:induction false} LeadingSpaceIsSpace(s: string)
    ensures forall i :: 0 <= i < LeadingSpace(s) ==> IsSpace(s[i])
  {
    if s != [] && IsSpace(s[0]) {
      LeadingSpaceIsSpace(s[1..]);
      assert forall i :: 1 <= i < |s| ==> s[i] == s[1..][i - 1];
    }
  }

  lemma {:induction false} TrailingSpaceIsSpace(s: string)
    ensures forall i :: |s| - TrailingSpace(s) <= i < |s| ==> IsSpace(s[i])
  {
    if s != [] && IsSpace(s[|s| - 1]) {
      TrailingSpaceIsSpace(s[..|s| - 1]);
    }
  }

  function TrimLeft(s: string): string
  {
    s[LeadingSpace(s)..]
  }

  function TrimRight(s: string): string
  {
    s[..|s| - TrailingSpace(s)]
  }

  /** `s.strip()` */
  function Strip(s: string): string
  {
    TrimRight(TrimLeft(s))
  }

  /** Lines 22-25: lower-cased, with commas, slashes and every other dropped character turned into spaces. */
  function Separated(s: string): string
  {
    var s1 := Lower(s);
    var s2 := Replace(s1, ',', ' ');
    var s3 := Replace(s2, '/', ' ');
    Scrub(s3)
  }

  /** `clean_text(s)`, src/preprocess.py:21-27. */
  function CleanText(s: string): string
  {
    Strip(Collapse(Separated(s)))
  }

  /** Made of kept characters and single spaces between them, with none at either end. */
  predicate IsClean(u: string)
  {
    (forall i :: 0 <= i < |u| ==> IsKept(u[i]) || u[i] == ' ')
    && (forall i :: 0 <= i < |u| - 1 ==> u[i] == ' ' ==> u[i + 1] != ' ')
    && (u != [] ==> u[0] != ' ' && u[|u| - 1] != ' ')
  }

  /** The kept characters of s, in order. */
  function KeptChars(s: string): string
  {
    if s == [] then [] else (if IsKept(s[0]) then [s[0]] else []) + KeptChars(s[1..])
  }

  /** s with every space character ' ' removed. */
  function DeleteSpaces(s: string): string
  {
    if s == [] then [] else (if s[0] == ' ' then [] else [s[0]]) + DeleteSpaces(s[1..])
  }

  // ---------------------------------------------------------------------------
  // Shape of the normalised text

  lemma {:induction false} CollapseShape(t: string)
    requires forall i :: 0 <= i < |t| ==> IsKept(t[i]) || IsSpace(t[i])
    ensures forall i :: 0 <= i < |Collapse(t)| ==> IsKept(Collapse(t)[i]) || Collapse(t)[i] == ' '
    ensures forall i :: 0 <= i < |Collapse(t)| - 1 ==> Collapse(t)[i] == ' ' ==> Collapse(t)[i + 1] != ' '
  {
    if t != [] {
      CollapseShape(t[1..]);
      var rest := Collapse(t[1..]);
      if IsSpace(t[0]) && |t| > 1 && IsSpace(t[1]) {
      } else if IsSpace(t[0]) {
        assert Collapse(t) == [' '] + rest;
        assert rest != [] ==> rest[0] != ' ';
      } else {
        assert Collapse(t) == [t[0]] + rest;
      }
    }
  }

  /** A slice of a string with kept characters and no double spaces has both properties too. */
  lemma SliceShape(x: string, p: int, q: int)
    requires 0 <= p <= q <= |x|
    requires forall i :: 0 <= i < |x| ==> IsKept(x[i]) || x[i] == ' '
    requires forall i :: 0 <= i < |x| - 1 ==> x[i] == ' ' ==> x[i + 1] != ' '
    ensures forall i :: 0 <= i < q - p ==> IsKept(x[p..q][i]) || x[p..q][i] == ' '
    ensures forall i :: 0 <= i < q - p - 1 ==> x[p..q][i] == ' ' ==> x[p..q][i + 1] != ' '
  {
    forall i | 0 <= i < q - p - 1 ensures x[p..q][i] == ' ' ==> x[p..q][i + 1] != ' ' {
      assert x[p..q][i] == x[p + i] && x[p..q][i + 1] == x[p + i + 1];
    }
  }

  lemma StripShape(x: string)
    requires forall i :: 0 <= i < |x| ==> IsKept(x[i]) || x[i] == ' '
    requires forall i :: 0 <= i < |x| - 1 ==> x[i] == ' ' ==> x[i + 1] != ' '
    ensures IsClean(Strip(x))
  {
    var l := TrimLeft(x);
    var p := LeadingSpace(x);
    var q := |l| - TrailingSpace(l);
    assert Strip(x) == x[p..p + q];
    SliceShape(x, p, p + q);
    if q > 0 {
      assert Strip(x)[0] == x[p] && Strip(x)[q - 1] == l[q - 1];
    }
  }

  /** Every result of `clean_text` is clean: only `[a-z0-9\-\+]` and single inner spaces. */
  lemma CleanTextIsClean(s: string)
    ensures IsClean(CleanText(s))
  {
    var s4 := Separated(s);
    CollapseShape(s4);
    StripShape(Collapse(s4));
  }

  // ---------------------------------------------------------------------------
  // Idempotence

  lemma {:induction false} CollapseOfClean(u: string)
    requires forall i :: 0 <= i < |u| ==> IsKept(u[i]) || u[i] == ' '
    requires forall i :: 0 <= i < |u| - 1 ==> u[i] == ' ' ==> u[i + 1] != ' '
    ensures Collapse(u) == u
  {
    if u != [] {
      CollapseOfClean(u[1..]);
      if IsSpace(u[0]) && |u| > 1 {
        assert !IsSpace(u[1]);
      }
    }
  }

  /** The steps before the collapse leave a string of kept characters and spaces unchanged. */
  lemma SeparatedOfClean(u: string)
    requires forall i :: 0 <= i < |u| ==> IsKept(u[i]) || u[i] == ' '
    ensures Separated(u) == u
  {
    var s1 := Lower(u);
    assert s1 == u by {
      forall i | 0 <= i < |u| ensures s1[i] == u[i] {
        assert IsKept(u[i]) || u[i] == ' ';
      }
    }
    var s2 := Replace(s1, ',', ' ');
    assert s2 == u;
    var s3 := Replace(s2, '/', ' ');
    assert s3 == u;
  }

  /** Each step of `clean_text` leaves a clean string unchanged. */
  lemma CleanOfClean(u: string)
    requires IsClean(u)
    ensures CleanText(u) == u
  {
    SeparatedOfClean(u);
    CollapseOfClean(u);
    assert TrimLeft(u) == u by {
      assert u != [] ==> !IsSpace(u[0]);
    }
    assert TrimRight(u) == u by {
      assert u != [] ==> !IsSpace(u[|u| - 1]);
    }
  }

  /** A clean string is a fixed point of `clean_text`, and only a clean one is. */
  lemma CleanTextFixedPoints(u: string)
    ensures CleanText(u) == u <==> IsClean(u)
  {
    CleanTextIsClean(u);
    if IsClean(u) {
      CleanOfClean(u);
    }
  }

  /** `clean_text(clean_text(s)) == clean_text(s)` */
  lemma CleanTextIdempotent(s: string)
    ensures CleanText(CleanText(s)) == CleanText(s)
  {
    CleanTextIsClean(s);
    CleanTextFixedPoints(CleanText(s));
  }

  // ---------------------------------------------------------------------------
  // Word boundaries

  /** The steps before the collapse work character by character. */
  lemma SeparatedAppend(a: string, b: string)
    ensures Separated(a + b) == Separated(a) + Separated(b)
  {
    var l, r := Separated(a), Separated(b);
    assert forall i :: 0 <= i < |a| ==> (a + b)[i] == a[i];
    assert forall i :: |a| <= i < |a| + |b| ==> (a + b)[i] == b[i - |a|];
    assert Separated(a + b) == l + r;
  }

  /** Characters that do not lower-case to a kept one all become whitespace. */
  lemma SeparatedOfGap(w: string)
    requires forall i :: 0 <= i < |w| ==> !IsKept(LowerChar(w[i]))
    ensures forall i :: 0 <= i < |Separated(w)| ==> IsSpace(Separated(w)[i])
  {
  }

  /** Collapsing splits after a character that is not whitespace. */
  lemma {:induction false} CollapseAppend(a: string, b: string)
    requires a != [] && !IsSpace(a[|a| - 1])
    ensures Collapse(a + b) == Collapse(a) + Collapse(b)
  {
    var c, t := a[0], a[1..];
    assert (a + b)[0] == c;
    assert (a + b)[1..] == t + b;
    if t == [] {
      assert Collapse(a) == [c];
    } else {
      CollapseAppend(t, b);
      assert (a + b)[1] == t[0];
      assert Collapse(a) == (if IsSpace(c) && IsSpace(t[0]) then [] else [if IsSpace(c) then ' ' else c]) + Collapse(t);
    }
  }

  /** A run of whitespace before a non-whitespace character becomes one space. */
  lemma {:induction false} CollapseGap(w: string, y: string)
    requires w != [] && forall i :: 0 <= i < |w| ==> IsSpace(w[i])
    requires y != [] && !IsSpace(y[0])
    ensures Collapse(w + y) == [' '] + Collapse(y)
  {
    var t := w[1..];
    assert (w + y)[0] == w[0];
    assert (w + y)[1..] == t + y;
    if t != [] {
      CollapseGap(t, y);
      assert (w + y)[1] == t[0];
    } else {
      assert (w + y)[1..] == y;
    }
  }

  /** Collapsing keeps a last character that is not whitespace. */
  lemma {:induction false} CollapseLast(t: string)
    requires t != [] && !IsSpace(t[|t| - 1])
    ensures Collapse(t) != [] && Collapse(t)[|Collapse(t)| - 1] == t[|t| - 1]
  {
    if |t| > 1 {
      CollapseLast(t[1..]);
    }
  }

  lemma {:induction false} LeadingSpaceOfSpaces(s: string)
    requires forall i :: 0 <= i < |s| ==> IsSpace(s[i])
    ensures LeadingSpace(s) == |s|
  {
    if s != [] {
      LeadingSpaceOfSpaces(s[1..]);
    }
  }

  /** A space in front does not change `strip()`. */
  lemma StripSpaceCons(z: string)
    ensures Strip([' '] + z) == Strip(z)
  {
    assert ([' '] + z)[1..] == z;
    assert TrimLeft([' '] + z) == TrimLeft(z);
  }

  /** A space at the end does not change the right trim. */
  lemma TrimRightSpace(v: string)
    ensures TrimRight(v + [' ']) == TrimRight(v)
  {
    assert (v + [' '])[..|v|] == v;
  }

  /** The left trim of a string that does not consist of whitespace alone ignores what follows it. */
  lemma {:induction false} TrimLeftAppend(p: string, z: string)
    requires LeadingSpace(p) < |p|
    ensures TrimLeft(p + z) == TrimLeft(p) + z
  {
    assert (p + z)[0] == p[0];
    if IsSpace(p[0]) {
      var p1 := p[1..];
      assert (p + z)[1..] == p1 + z;
      TrimLeftAppend(p1, z);
      assert TrimLeft(p) == TrimLeft(p1);
    } else {
      assert TrimLeft(p) == p;
    }
  }

  /** A space at the end does not change `strip()`. */
  lemma StripSpaceSnoc(z: string)
    ensures Strip(z + [' ']) == Strip(z)
  {
    if LeadingSpace(z) < |z| {
      TrimLeftAppend(z, [' ']);
      TrimRightSpace(TrimLeft(z));
    } else {
      LeadingSpaceIsSpace(z);
      LeadingSpaceOfSpaces(z + [' ']);
    }
  }

  /** The right trim of a string that does not consist of whitespace alone ignores what precedes it. */
  lemma {:induction false} TrimRightAppend(z: string, q: string)
    requires TrailingSpace(q) < |q|
    ensures TrimRight(z + q) == z + TrimRight(q)
  {
    assert (z + q)[|z + q| - 1] == q[|q| - 1];
    if IsSpace(q[|q| - 1]) {
      var q1 := q[..|q| - 1];
      assert (z + q)[..|z + q| - 1] == z + q1;
      TrimRightAppend(z, q1);
      assert TrimRight(q) == TrimRight(q1);
    } else {
      assert TrimRight(q) == q;
    }
  }

  /** `strip()` of two words around one space strips the outer ends only. */
  lemma StripJoin(p: string, q: string)
    requires p != [] && !IsSpace(p[|p| - 1]) && q != [] && !IsSpace(q[0])
    ensures Strip(p + [' '] + q) == Strip(p) + [' '] + Strip(q)
  {
    LeadingSpaceIsSpace(p);
    TrailingSpaceIsSpace(q);
    var v := TrimLeft(p);
    assert TrimLeft(p + ([' '] + q)) == v + ([' '] + q) by {
      TrimLeftAppend(p, [' '] + q);
    }
    assert TrimRight((v + [' ']) + q) == (v + [' ']) + TrimRight(q) by {
      TrimRightAppend(v + [' '], q);
    }
    assert p + [' '] + q == p + ([' '] + q);
    assert v + ([' '] + q) == (v + [' ']) + q;
    assert Strip(p) == v by {
      assert v != [] && v[|v| - 1] == p[|p| - 1];
    }
    assert Strip(q) == TrimRight(q) by {
      assert TrimLeft(q) == q;
    }
  }

  /** A whitespace character in front does not change the collapsed and stripped form. */
  lemma CleanSpaceCons(c: char, u: string)
    requires IsSpace(c)
    ensures Strip(Collapse([c] + u)) == Strip(Collapse(u))
  {
    assert ([c] + u)[1..] == u;
    if u == [] || !IsSpace(u[0]) {
      StripSpaceCons(Collapse(u));
    }
  }

  /** Appending a whitespace character adds a space unless the string already ends in whitespace. */
  lemma {:induction false} CollapseSnoc(u: string, c: char)
    requires IsSpace(c)
    ensures Collapse(u + [c]) == if u != [] && IsSpace(u[|u| - 1]) then Collapse(u) else Collapse(u) + [' ']
  {
    if u != [] {
      var t := u[1..];
      assert (u + [c])[0] == u[0] && (u + [c])[1..] == t + [c];
      CollapseSnoc(t, c);
      if t != [] {
        assert (u + [c])[1] == t[0] && u[|u| - 1] == t[|t| - 1];
      }
    }
  }

  /** A whitespace character at the end does not change the collapsed and stripped form. */
  lemma CleanSpaceSnoc(u: string, c: char)
    requires IsSpace(c)
    ensures Strip(Collapse(u + [c])) == Strip(Collapse(u))
  {
    CollapseSnoc(u, c);
    StripSpaceSnoc(Collapse(u));
  }

  /** Whitespace in front of a string does not change its collapsed and stripped form. */
  lemma {:induction false} CleanLead(g: string, t: string)
    requires forall i :: 0 <= i < |g| ==> IsSpace(g[i])
    ensures Strip(Collapse(g + t)) == Strip(Collapse(t))
  {
    if g != [] {
      var c, h := g[0], g[1..];
      var u := h + t;
      assert g + t == [c] + u;
      CleanSpaceCons(c, u);
      CleanLead(h, t);
    } else {
      assert g + t == t;
    }
  }

  /** Whitespace after a string does not change its collapsed and stripped form. */
  lemma {:induction false} CleanTrail(t: string, g: string)
    requires forall i :: 0 <= i < |g| ==> IsSpace(g[i])
    ensures Strip(Collapse(t + g)) == Strip(Collapse(t))
  {
    if g != [] {
      var h, c := g[..|g| - 1], g[|g| - 1];
      var u := t + h;
      assert t + g == u + [c];
      CleanSpaceSnoc(u, c);
      CleanTrail(t, h);
    } else {
      assert t + g == t;
    }
  }

  /** The case of `CleanJoin` where the gap is flanked by characters that are not whitespace. */
  lemma CleanJoinWords(a: string, g: string, b: string)
    requires a != [] && !IsSpace(a[|a| - 1]) && b != [] && !IsSpace(b[0])
    requires g != [] && forall i :: 0 <= i < |g| ==> IsSpace(g[i])
    ensures Strip(Collapse(a + g + b)) == Strip(Collapse(a)) + [' '] + Strip(Collapse(b))
  {
    var c1, c2 := Collapse(a), Collapse(b);
    assert Collapse(a + g + b) == c1 + [' '] + c2 by {
      assert a + g + b == a + (g + b);
      CollapseAppend(a, g + b);
      CollapseGap(g, b);
    }
    CollapseLast(a);
    StripJoin(c1, c2);
  }

  /** Whitespace added to either side of a gap leaves a gap. */
  lemma GapGrows(c: char, g: string)
    requires IsSpace(c) && forall i :: 0 <= i < |g| ==> IsSpace(g[i])
    ensures forall i :: 0 <= i < |[c] + g| ==> IsSpace(([c] + g)[i])
    ensures forall i :: 0 <= i < |g + [c]| ==> IsSpace((g + [c])[i])
  {
  }

  /** How a character moves between a part and the gap next to it. */
  lemma Regroup(a: string, c: char, g: string, b: string)
    ensures (a + [c]) + g + b == a + ([c] + g) + b
    ensures a + g + ([c] + b) == a + (g + [c]) + b
  {
  }

  /** `CleanJoin` once the left part ends in a character that is not whitespace. */
  lemma {:induction false} CleanJoinRight(a: string, g: string, b: string)
    requires a != [] && !IsSpace(a[|a| - 1])
    requires g != [] && forall i :: 0 <= i < |g| ==> IsSpace(g[i])
    requires Strip(Collapse(b)) != []
    ensures Strip(Collapse(a + g + b)) == Strip(Collapse(a)) + [' '] + Strip(Collapse(b))
    decreases |b|
  {
    assert b != [];
    if IsSpace(b[0]) {
      var c, b1 := b[0], b[1..];
      GapGrows(c, g);
      assert b == [c] + b1;
      Regroup(a, c, g, b1);
      CleanSpaceCons(c, b1);
      CleanJoinRight(a, g + [c], b1);
    } else {
      CleanJoinWords(a, g, b);
    }
  }

  /** A whitespace gap between two strings that keep something becomes one space. */
  lemma {:induction false} CleanJoin(a: string, g: string, b: string)
    requires g != [] && forall i :: 0 <= i < |g| ==> IsSpace(g[i])
    requires Strip(Collapse(a)) != [] && Strip(Collapse(b)) != []
    ensures Strip(Collapse(a + g + b)) == Strip(Collapse(a)) + [' '] + Strip(Collapse(b))
    decreases |a|
  {
    assert a != [];
    if IsSpace(a[|a| - 1]) {
      var a1, c := a[..|a| - 1], a[|a| - 1];
      GapGrows(c, g);
      assert a == a1 + [c];
      Regroup(a1, c, g, b);
      CleanSpaceSnoc(a1, c);
      CleanJoin(a1, [c] + g, b);
    } else {
      CleanJoinRight(a, g, b);
    }
  }

  /** `clean_text` lower-cases first: upper- and lower-case input give the same result. */
  lemma CleanTextLower(s: string)
    ensures CleanText(Lower(s)) == CleanText(s)
  {
    assert Lower(Lower(s)) == Lower(s);
  }

  /** A run of characters that each lower-case to a kept one is one word: its lower-cased form. */
  lemma CleanTextWord(k: string)
    requires forall i :: 0 <= i < |k| ==> IsKept(LowerChar(k[i]))
    ensures CleanText(k) == Lower(k)
  {
    CleanTextLower(k);
    CleanOfClean(Lower(k));
  }

  /**
   * A gap of characters that do not lower-case to a kept one (whitespace,
   * commas, slashes, punctuation) at either end of the input vanishes.
   */
  lemma CleanTextGap(w: string, s: string)
    requires forall i :: 0 <= i < |w| ==> !IsKept(LowerChar(w[i]))
    ensures CleanText(w + s) == CleanText(s)
    ensures CleanText(s + w) == CleanText(s)
  {
    SeparatedAppend(w, s);
    SeparatedAppend(s, w);
    SeparatedOfGap(w);
    CleanLead(Separated(w), Separated(s));
    CleanTrail(Separated(s), Separated(w));
  }

  /**
   * A non-empty gap between two parts that each keep something becomes
   * exactly one space between their normalised forms: words are neither
   * joined nor split further.
   */
  lemma CleanTextJoin(x: string, w: string, y: string)
    requires w != [] && forall i :: 0 <= i < |w| ==> !IsKept(LowerChar(w[i]))
    requires CleanText(x) != [] && CleanText(y) != []
    ensures CleanText(x + w + y) == CleanText(x) + " " + CleanText(y)
  {
    SeparatedAppend(x + w, y);
    SeparatedAppend(x, w);
    SeparatedOfGap(w);
    CleanJoin(Separated(x), Separated(w), Separated(y));
  }

  // ---------------------------------------------------------------------------
  // What survives

  lemma KeptCons(c: char, t: string)
    ensures KeptChars([c] + t) == (if IsKept(c) then [c] else []) + KeptChars(t)
  {
    assert ([c] + t)[1..] == t;
  }

  lemma {:induction false} KeptAppend(a: string, b: string)
    ensures KeptChars(a + b) == KeptChars(a) + KeptChars(b)
  {
    if a == [] {
      assert a + b == b;
    } else {
      var c, t := a[0], a[1..];
      KeptAppend(t, b);
      assert a == [c] + t;
      assert a + b == [c] + (t + b);
      KeptCons(c, t);
      KeptCons(c, t + b);
    }
  }

  lemma {:induction false} KeptNone(x: string)
    ensures KeptChars(x) == [] <==> forall i :: 0 <= i < |x| ==> !IsKept(x[i])
  {
    if x != [] {
      KeptNone(x[1..]);
      assert forall i :: 1 <= i < |x| ==> x[i] == x[1..][i - 1];
    }
  }

  /** Two strings with the same kept characters at the same places keep the same characters. */
  lemma {:induction false} KeptPointwise(a: string, b: string)
    requires |a| == |b|
    requires forall i :: 0 <= i < |a| ==> (IsKept(a[i]) || IsKept(b[i])) ==> a[i] == b[i]
    ensures KeptChars(a) == KeptChars(b)
  {
    if a != [] {
      KeptPointwise(a[1..], b[1..]);
    }
  }

  lemma {:induction false} KeptCollapse(t: string)
    ensures KeptChars(Collapse(t)) == KeptChars(t)
  {
    if t != [] {
      KeptCollapse(t[1..]);
      var rest := Collapse(t[1..]);
      if IsSpace(t[0]) && |t| > 1 && IsSpace(t[1]) {
      } else if IsSpace(t[0]) {
        assert Collapse(t) == [' '] + rest;
        assert ([' '] + rest)[1..] == rest;
      } else {
        assert Collapse(t) == [t[0]] + rest;
        assert ([t[0]] + rest)[1..] == rest;
      }
    }
  }

  lemma KeptTrimLeft(x: string)
    ensures KeptChars(TrimLeft(x)) == KeptChars(x)
  {
    var l := TrimLeft(x);
    var lead := x[..LeadingSpace(x)];
    LeadingSpaceIsSpace(x);
    assert x == lead + l;
    assert forall i :: 0 <= i < |lead| ==> !IsKept(lead[i]);
    KeptNone(lead);
    KeptAppend(lead, l);
  }

  lemma KeptTrimRight(x: string)
    ensures KeptChars(TrimRight(x)) == KeptChars(x)
  {
    var r := TrimRight(x);
    var trail := x[|r|..];
    TrailingSpaceIsSpace(x);
    assert x == r + trail;
    assert forall i :: 0 <= i < |trail| ==> !IsKept(trail[i]) by {
      forall i | 0 <= i < |trail| ensures !IsKept(trail[i]) {
        assert trail[i] == x[|r| + i];
      }
    }
    KeptNone(trail);
    KeptAppend(r, trail);
  }

  lemma KeptStrip(x: string)
    ensures KeptChars(Strip(x)) == KeptChars(x)
  {
    KeptTrimLeft(x);
    KeptTrimRight(TrimLeft(x));
  }

  lemma {:induction false} DeleteSpacesOfKept(u: string)
    requires forall i :: 0 <= i < |u| ==> IsKept(u[i]) || u[i] == ' '
    ensures DeleteSpaces(u) == KeptChars(u)
  {
    if u != [] {
      DeleteSpacesOfKept(u[1..]);
    }
  }

  /**
   * Deleting the spaces of `clean_text(s)` leaves exactly the kept characters
   * of the lower-cased input, in their original order: commas, slashes,
   * whitespace and every other character only ever become separators.
   */
  lemma CleanTextKeeps(s: string)
    ensures DeleteSpaces(CleanText(s)) == KeptChars(Lower(s))
  {
    var s1 := Lower(s);
    var s4 := Separated(s);
    KeptPointwise(s1, s4);
    KeptCollapse(s4);
    KeptStrip(Collapse(s4));
    CleanTextIsClean(s);
    DeleteSpacesOfKept(CleanText(s));
  }

  /**
   * A comma, a slash or any other character the scrubbing step drops acts
   * only as a separator: writing a space in its place changes nothing.
   */
  lemma CleanTextSeparator(s: string, i: nat)
    requires i < |s| && !IsKept(LowerChar(s[i])) && !IsSpace(s[i])
    ensures CleanText(s[i := ' ']) == CleanText(s)
  {
    var a := Scrub(Replace(Replace(Lower(s), ',', ' '), '/', ' '));
    var b := Scrub(Replace(Replace(Lower(s[i := ' ']), ',', ' '), '/', ' '));
    assert a[i] == ' ';
    assert forall k :: 0 <= k < |a| ==> a[k] == b[k];
    assert a == b;
  }

  /** `clean_text` yields "" exactly when no character lower-cases to a kept one. */
  lemma CleanTextEmpty(s: string)
    ensures CleanText(s) == [] <==> forall i :: 0 <= i < |s| ==> !IsKept(LowerChar(s[i]))
  {
    var u := CleanText(s);
    var low := Lower(s);
    CleanTextKeeps(s);
    CleanTextIsClean(s);
    DeleteSpacesOfKept(u);
    KeptNone(u);
    KeptNone(low);
    assert forall i :: 0 <= i < |s| ==> low[i] == LowerChar(s[i]);
    assert u != [] ==> IsKept(u[0]);
  }

  // ---------------------------------------------------------------------------
  // `_safe_col`, src/preprocess.py:12-18

  /** Some column equals the candidate ignoring case. */
  predicate HasColumn(columns: seq<string>, cand: string)
  {
    exists i :: 0 <= i < |columns| && Lower(columns[i]) == Lower(cand)
  }

  /** No later column has the same lower-cased name as column i. */
  predicate IsLastOfKey(columns: seq<string>, i: int)
    requires 0 <= i < |columns|
  {
    forall j :: i < j < |columns| ==> Lower(columns[j]) != Lower(columns[i])
  }

  /**
   * `{c.lower(): c for c in df.columns}`: keys are the lower-cased column
   * names; later columns overwrite earlier ones with the same key.
   */
  function LowerMap(columns: seq<string>): map<string, string>
  {
    if columns == [] then map[]
    else
      var n := |columns| - 1;
      LowerMap(columns[..n])[Lower(columns[n]) := columns[n]]
  }

  /** The keys of the map are the lower-cased column names. */
  lemma {:induction false} LowerMapKeys(columns: seq<string>)
    ensures forall k :: k in LowerMap(columns) <==> exists i :: 0 <= i < |columns| && Lower(columns[i]) == k
  {
    if columns != [] {
      var n := |columns| - 1;
      var prefix := columns[..n];
      LowerMapKeys(prefix);
      var last := Lower(columns[n]);
      assert forall i :: 0 <= i < n ==> prefix[i] == columns[i];
      forall k ensures k in LowerMap(columns) <==> exists i :: 0 <= i < |columns| && Lower(columns[i]) == k {
        if k != last && exists i :: 0 <= i < |columns| && Lower(columns[i]) == k {
          var i :| 0 <= i < |columns| && Lower(columns[i]) == k;
          assert Lower(prefix[i]) == k;
        }
      }
    }
  }

  /** Each key maps to the last column with that lower-cased name. */
  lemma {:induction false} LowerMapValues(columns: seq<string>)
    ensures forall k :: k in LowerMap(columns) ==>
      exists i :: 0 <= i < |columns| && Lower(columns[i]) == k && IsLastOfKey(columns, i) && LowerMap(columns)[k] == columns[i]
  {
    if columns != [] {
      var n := |columns| - 1;
      var prefix := columns[..n];
      LowerMapValues(prefix);
      var m := LowerMap(columns);
      var last := Lower(columns[n]);
      forall k | k in m
        ensures exists i :: 0 <= i < |columns| && Lower(columns[i]) == k && IsLastOfKey(columns, i) && m[k] == columns[i]
      {
        if k == last {
          assert Lower(columns[n]) == k && IsLastOfKey(columns, n) && m[k] == columns[n];
        } else {
          var i :| 0 <= i < n && Lower(prefix[i]) == k && IsLastOfKey(prefix, i) && LowerMap(prefix)[k] == prefix[i];
          assert columns[i] == prefix[i];
          forall j | i < j < |columns| ensures Lower(columns[j]) != Lower(columns[i]) {
            if j < n {
              assert columns[j] == prefix[j];
            }
          }
          assert Lower(columns[i]) == k && IsLastOfKey(columns, i) && m[k] == columns[i];
        }
      }
    }
  }

  /**
   * `_safe_col(df, candidates)`: the column matching the earliest candidate
   * that matches any, ignoring case; when several columns match it, the last.
   */
  method SafeCol(columns: seq<string>, candidates: seq<string>) returns (r: Option<string>)
    ensures r.None? <==> forall j :: 0 <= j < |candidates| ==> !HasColumn(columns, candidates[j])
    ensures r.Some? ==>
      exists j, i :: 0 <= j < |candidates| && 0 <= i < |columns|
        && (forall j' :: 0 <= j' < j ==> !HasColumn(columns, candidates[j']))
        && Lower(columns[i]) == Lower(candidates[j]) && IsLastOfKey(columns, i)
        && r.value == columns[i]
  {
    var lowerMap := LowerMap(columns);
    LowerMapKeys(columns);
    LowerMapValues(columns);
    for k := 0 to |candidates|
      invariant forall j :: 0 <= j < k ==> !HasColumn(columns, candidates[j])
    {
      var key := Lower(candidates[k]);
      if key in lowerMap {
        return Some(lowerMap[key]);
      }
    }
    return None;
  }
}
