/** ASCII text: the string operations the server leans on (trimming, lower-casing,
    suffix tests, SQLite's byte-wise ordering) and what they mean. */
module Text {

  datatype Option<+T> = None | Some(value: T)

  ghost predicate IsSuffix<T>(p: seq<T>, s: seq<T>) {
    |p| <= |s| && s[|s| - |p|..] == p
  }

  // ── Trimming and case ──────────────────────────────────────────────────────

  predicate IsSpace(c: char) {
    c == ' ' || '\t' <= c <= '\r'
  }

  function LowerChar(c: char): char {
    if 'A' <= c <= 'Z' then (c as int + 32) as char else c
  }

  const CAPITALS := "ABCDEFGHIJKLMNOPQRSTUVWXYZ"
  const SMALL_LETTERS := "abcdefghijklmnopqrstuvwxyz"
  const WHITE_SPACE := " \t\n\r\U{000B}\U{000C}"

  /** Each capital becomes its small letter, and nothing else changes. */
  lemma LowerIsAlphabetic(c: char)
    ensures forall i :: 0 <= i < |CAPITALS| ==> LowerChar(CAPITALS[i]) == SMALL_LETTERS[i]
    ensures c !in CAPITALS ==> LowerChar(c) == c
  {
    if 'A' <= c <= 'Z' {
      assert CAPITALS[c as int - 'A' as int] == c;
    }
  }

  /** The ASCII white space of the standard library's `trim`. */
  lemma SpaceIsWhite(c: char)
    ensures IsSpace(c) <==> c in WHITE_SPACE
  {}

  function Lower(s: string): string {
    seq(|s|, i requires 0 <= i < |s| => LowerChar(s[i]))
  }

  /** Drops leading white space; what is left is the longest suffix that starts with ink. */
  function TrimStart(s: string): (r: string)
    ensures IsSuffix(r, s)
    ensures r == "" || !IsSpace(r[0])
    ensures forall i :: 0 <= i < |s| - |r| ==> IsSpace(s[i])
  {
    if s != "" && IsSpace(s[0]) then TrimStart(s[1..]) else s
  }

  function TrimEnd(s: string): (r: string)
    ensures r <= s
    ensures r == "" || !IsSpace(r[|r| - 1])
    ensures forall i :: |r| <= i < |s| ==> IsSpace(s[i])
  {
    if s != "" && IsSpace(s[|s| - 1]) then TrimEnd(s[..|s| - 1]) else s
  }

  function Trim(s: string): (r: string)
    ensures r == "" || (!IsSpace(r[0]) && !IsSpace(r[|r| - 1]))
  {
    TrimEnd(TrimStart(s))
  }

  function TrimDots(s: string): (r: string)
    ensures r <= s
    ensures r == "" || r[|r| - 1] != '.'
    ensures forall i :: |r| <= i < |s| ==> s[i] == '.'
  {
    if s != "" && s[|s| - 1] == '.' then TrimDots(s[..|s| - 1]) else s
  }

  /** Trailing-dot removal and lower-casing may be done in either order. */
  lemma TrimDotsLowerCommute(s: string)
    ensures TrimDots(Lower(s)) == Lower(TrimDots(s))
  {
    if s != "" && s[|s| - 1] == '.' {
      assert Lower(s)[..|s| - 1] == Lower(s[..|s| - 1]);
      TrimDotsLowerCommute(s[..|s| - 1]);
    }
  }

  // ── Labels ─────────────────────────────────────────────────────────────────

  /** What `Labels` does with one more character in front. */
  function Prepend(c: char, ls: seq<string>): seq<string>
    requires ls != []
  {
    if c == '.' then [""] + ls else [[c] + ls[0]] + ls[1..]
  }

  /** The dot-separated labels of a name. */
  function Labels(s: string): (r: seq<string>)
    ensures r != []
  {
    if s == "" then [""] else Prepend(s[0], Labels(s[1..]))
  }

  function Join(ls: seq<string>): string
    requires ls != []
  {
    if |ls| == 1 then ls[0] else ls[0] + "." + Join(ls[1..])
  }

  lemma {:induction false} JoinLabels(s: string)
    ensures Join(Labels(s)) == s
  {
    if s != "" {
      JoinLabels(s[1..]);
      var r := Labels(s[1..]);
      if s[0] == '.' {
        assert ([""] + r)[1..] == r;
      } else if |r| > 1 {
        assert ([[s[0]] + r[0]] + r[1..])[1..] == r[1..];
        assert ([s[0]] + r[0]) + "." + Join(r[1..]) == [s[0]] + Join(r);
      }
    }
  }

  lemma PrependChar(c: char, p: seq<string>, q: seq<string>)
    requires p != []
    ensures Prepend(c, p + q) == Prepend(c, p) + q
  {
    assert (p + q)[1..] == p[1..] + q;
  }

  lemma {:induction false} LabelsOfDotted(a: string, b: string)
    ensures Labels(a + "." + b) == Labels(a) + Labels(b)
  {
    var s := a + "." + b;
    if a == "" {
      assert s[1..] == b;
    } else {
      LabelsOfDotted(a[1..], b);
      assert s[1..] == a[1..] + "." + b;
      PrependChar(a[0], Labels(a[1..]), Labels(b));
    }
  }

  lemma {:induction false} JoinAppend(p: seq<string>, q: seq<string>)
    requires p != [] && q != []
    ensures Join(p + q) == Join(p) + "." + Join(q)
  {
    assert (p + q)[1..] == p[1..] + q;
    if |p| > 1 {
      JoinAppend(p[1..], q);
    } else {
      assert p[1..] == [];
    }
  }

  /** The suffix test used all over the server: `d` is `zone`, or ends in `.zone`. */
  predicate Covers(zone: string, d: string) {
    d == zone || (|zone| < |d| && d[|d| - |zone| - 1..] == "." + zone)
  }

  /** The raw string test is exactly the DNS relation "the labels of `zone` end those of `d`". */
  lemma CoversIsLabelSuffix(zone: string, d: string)
    ensures Covers(zone, d) <==> IsSuffix(Labels(zone), Labels(d))
  {
    if d != zone && Covers(zone, d) {
      var a := d[..|d| - |zone| - 1];
      assert d == a + "." + zone;
      LabelsOfDotted(a, zone);
    }
    if IsSuffix(Labels(zone), Labels(d)) {
      var n := |Labels(d)| - |Labels(zone)|;
      assert Labels(d) == Labels(d)[..n] + Labels(zone);
      JoinLabels(d);
      JoinLabels(zone);
      if n > 0 {
        JoinAppend(Labels(d)[..n], Labels(zone));
      } else {
        assert Labels(d)[..n] == [];
      }
    }
  }

  // ── Ordering ───────────────────────────────────────────────────────────────

  /** Byte-wise text order, as `ORDER BY`, `<` in SQLite and `str::cmp` compute it. */
  predicate Less(a: string, b: string) {
    b != "" && (a == "" || a[0] < b[0] || (a[0] == b[0] && Less(a[1..], b[1..])))
  }

  lemma {:induction false} LessTransitive(a: string, b: string, c: string)
    requires Less(a, b) && Less(b, c)
    ensures Less(a, c)
  {
    if a != "" && a[0] == b[0] && b[0] == c[0] {
      LessTransitive(a[1..], b[1..], c[1..]);
    }
  }

  /** Exactly one of `a < b`, `a == b`, `b < a`. */
  lemma {:induction false} LessTrichotomy(a: string, b: string)
    ensures Less(a, b) || a == b || Less(b, a)
    ensures !(Less(a, b) && Less(b, a)) && !Less(a, a)
  {
    if a != "" {
      LessTrichotomy(a[1..], a[1..]);
      if b != "" && a[0] == b[0] {
        LessTrichotomy(a[1..], b[1..]);
        assert a == [a[0]] + a[1..] && b == [b[0]] + b[1..];
      }
    }
  }

  /** Texts with prefixes of one length compare by the prefixes first, then by the rest. */
  lemma {:induction false} LessConcat(p: string, q: string, a: string, b: string)
    requires |p| == |q|
    ensures Less(p + a, q + b) <==> Less(p, q) || (p == q && Less(a, b))
  {
    if p == "" {
      assert p + a == a && q + b == b;
    } else {
      assert (p + a)[1..] == p[1..] + a && (q + b)[1..] == q[1..] + b;
      assert p == [p[0]] + p[1..] && q == [q[0]] + q[1..];
      LessConcat(p[1..], q[1..], a, b);
    }
  }

  /** Strictly increasing: sorted with no duplicates. */
  predicate StrictlySorted(s: seq<string>) {
    forall i :: 0 <= i < |s| - 1 ==> Less(s[i], s[i + 1])
  }

  lemma StrictlySortedPairs(s: seq<string>, i: nat, j: nat)
    requires StrictlySorted(s) && i < j < |s|
    ensures Less(s[i], s[j])
  {
    if i + 1 < j {
      StrictlySortedPairs(s, i, j - 1);
      assert Less(s[j - 1], s[j - 1 + 1]);
      LessTransitive(s[i], s[j - 1], s[j]);
    }
  }

  /** A sorted duplicate-free list is determined by the set of its elements. */
  lemma {:induction false} SortedUnique(a: seq<string>, b: seq<string>)
    requires StrictlySorted(a) && StrictlySorted(b)
    requires forall x :: x in a <==> x in b
    ensures a == b
  {
    assert (a != [] ==> a[0] in b) && (b != [] ==> b[0] in a);
    if a != [] && b != [] {
      HeadIsLeast(a, b[0]);
      HeadIsLeast(b, a[0]);
      LessTrichotomy(a[0], b[0]);
      forall x ensures x in a[1..] <==> x in b[1..] {
        TailWithoutHead(a, x);
        TailWithoutHead(b, x);
      }
      SortedUnique(a[1..], b[1..]);
      assert a == [a[0]] + a[1..] && b == [b[0]] + b[1..];
    }
  }

  lemma HeadIsLeast(s: seq<string>, x: string)
    requires StrictlySorted(s) && x in s
    ensures x == s[0] || Less(s[0], x)
  {
    var j :| 0 <= j < |s| && s[j] == x;
    if j > 0 {
      StrictlySortedPairs(s, 0, j);
    }
  }

  lemma TailWithoutHead(s: seq<string>, x: string)
    requires StrictlySorted(s) && s != []
    ensures x in s[1..] <==> x in s && x != s[0]
  {
    if x in s[1..] {
      var j :| 0 <= j < |s| - 1 && s[1..][j] == x;
      StrictlySortedPairs(s, 0, j + 1);
      LessTrichotomy(x, x);
    }
    if x in s && x != s[0] {
      var j :| 0 <= j < |s| && s[j] == x;
      assert s[1..][j - 1] == x;
    }
  }
}
