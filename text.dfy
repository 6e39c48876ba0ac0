/**
 * The string operations the hadith service relies on: `split(' ')` and
 * `join(' ')`, `slice(0, k)` on a list, the decimal rendering of a number
 * (template literals and `toString()`), and upper-casing the first character.
 */
module Text {

  const Space: char := ' '

  /** Number of spaces in `s`. */
  function Spaces(s: string): (n: nat)
    ensures n <= |s|
  {
    if s == [] then 0 else (if s[0] == Space then 1 else 0) + Spaces(s[1..])
  }

  lemma {:induction false} SpacesAppend(a: string, b: string)
    ensures Spaces(a + b) == Spaces(a) + Spaces(b)
  {
    if a != [] {
      assert (a + b)[1..] == a[1..] + b;
      SpacesAppend(a[1..], b);
    } else {
      assert a + b == b;
    }
  }

  /** Position of the first space of `s`. */
  function FirstSpace(s: string): (i: nat)
    requires Space in s
    ensures i < |s| && s[i] == Space && Space !in s[..i]
  {
    if s[0] == Space then 0 else FirstSpace(s[1..]) + 1
  }

  /**
   * `s.split(' ')`: the maximal space-free pieces between spaces; consecutive
   * spaces give empty pieces and the empty string gives one empty piece.
   */
  function Split(s: string): (parts: seq<string>)
    ensures |parts| == Spaces(s) + 1
    ensures forall k :: 0 <= k < |parts| ==> Space !in parts[k]
    decreases |s|
  {
    if Space !in s then
      assert Spaces(s) == 0 by { NoSpaceNoCount(s); }
      [s]
    else
      var i := FirstSpace(s);
      var rest := Split(s[i + 1..]);
      assert Spaces(s) == Spaces(s[i + 1..]) + 1 by { SpacesAtFirst(s); }
      [s[..i]] + rest
  }

  lemma {:induction false} NoSpaceNoCount(s: string)
    requires Space !in s
    ensures Spaces(s) == 0
  {
    if s != [] {
      assert s[0] in s;
      assert forall c :: c in s[1..] ==> c in s;
      NoSpaceNoCount(s[1..]);
    }
  }

  /** A space-free prefix followed by a space adds exactly one space. */
  lemma SpacesPrefixed(a: string, x: string)
    requires Space !in a
    ensures Spaces(a + [Space] + x) == Spaces(x) + 1
  {
    SpacesAppend(a, [Space] + x);
    SpacesAppend([Space], x);
    NoSpaceNoCount(a);
    assert a + [Space] + x == a + ([Space] + x);
  }

  lemma SpacesAtFirst(s: string)
    requires Space in s
    ensures Spaces(s) == Spaces(s[FirstSpace(s) + 1..]) + 1
  {
    var i := FirstSpace(s);
    assert s == s[..i] + [Space] + s[i + 1..];
    SpacesPrefixed(s[..i], s[i + 1..]);
  }

  /** The first space of `a + [Space] + b`, for space-free `a`, is right after `a`. */
  lemma {:induction false} FirstSpaceAfter(a: string, b: string)
    requires Space !in a
    ensures Space in a + [Space] + b && FirstSpace(a + [Space] + b) == |a|
  {
    var s := a + [Space] + b;
    assert s[|a|] == Space;
    if a != [] {
      assert a[0] in a;
      assert forall c :: c in a[1..] ==> c in a;
      assert s[1..] == a[1..] + [Space] + b;
      FirstSpaceAfter(a[1..], b);
    }
  }

  /**
   * `parts.join(' ')`; joining no parts gives the empty string, and the
   * result starts with the first part.
   */
  function Join(parts: seq<string>): (r: string)
    ensures parts != [] ==> parts[0] <= r
  {
    if parts == [] then []
    else if |parts| == 1 then parts[0]
    else parts[0] + [Space] + Join(parts[1..])
  }

  /**
   * A join splits at every boundary: the parts up to `k`, one space, and the
   * parts after `k`.
   */
  lemma {:induction false} JoinAt(parts: seq<string>, k: nat)
    requires k + 1 < |parts|
    ensures Join(parts) == Join(parts[..k + 1]) + [Space] + Join(parts[k + 1..])
  {
    if k > 0 {
      var tail := parts[1..];
      JoinAt(tail, k - 1);
      assert tail[..k] == parts[..k + 1][1..];
      assert tail[k..] == parts[k + 1..];
    }
  }

  /** Joining `n` space-free parts gives exactly `n - 1` spaces. */
  lemma {:induction false} JoinSpaces(parts: seq<string>)
    requires parts != []
    requires forall k :: 0 <= k < |parts| ==> Space !in parts[k]
    ensures Spaces(Join(parts)) == |parts| - 1
  {
    if |parts| == 1 {
      NoSpaceNoCount(parts[0]);
    } else {
      JoinSpaces(parts[1..]);
      SpacesPrefixed(parts[0], Join(parts[1..]));
    }
  }

  /** `xs.slice(0, k)`. */
  function Take<T>(xs: seq<T>, k: nat): (r: seq<T>)
    ensures |r| == if k < |xs| then k else |xs|
    ensures r == xs[..|r|]
  {
    if k < |xs| then xs[..k] else xs
  }

  /** Joining the pieces of a split gives back the original string. */
  lemma {:induction false} JoinSplit(s: string)
    ensures Join(Split(s)) == s
    decreases |s|
  {
    if Space in s {
      var i := FirstSpace(s);
      JoinSplit(s[i + 1..]);
      assert s == s[..i] + [Space] + s[i + 1..];
    }
  }

  /** Splitting a join of space-free pieces gives back the pieces. */
  lemma {:induction false} SplitJoin(parts: seq<string>)
    requires parts != []
    requires forall k :: 0 <= k < |parts| ==> Space !in parts[k]
    ensures Split(Join(parts)) == parts
  {
    if |parts| > 1 {
      var p, tail := parts[0], Join(parts[1..]);
      var s := p + [Space] + tail;
      assert Join(parts) == s;
      assert Space !in p;
      FirstSpaceAfter(p, tail);
      assert s[..|p|] == p;
      assert s[|p| + 1..] == tail;
      assert Split(s) == [p] + Split(tail);
      SplitJoin(parts[1..]);
      assert parts == [p] + parts[1..];
    }
  }

  /**
   * `p` is the prefix of `s` that stops just before the `k`-th space of `s`,
   * or all of `s` when `s` has fewer than `k` spaces.
   */
  predicate CutBeforeSpace(s: string, p: string, k: nat)
  {
    && p <= s
    && Spaces(p) == (if Spaces(s) < k then Spaces(s) else k - 1)
    && (Spaces(s) < k ==> p == s)
    && (Spaces(s) >= k ==> |p| < |s| && s[|p|] == Space)
  }

  /** Joining the first `k` pieces of a split cuts `s` before its `k`-th space. */
  lemma {:induction false} JoinTakeSplit(s: string, k: nat)
    requires k >= 1
    ensures CutBeforeSpace(s, Join(Take(Split(s), k)), k)
    decreases |s|
  {
    if Space !in s {
      CutWithoutSpace(s, k);
    } else if k == 1 {
      CutAtFirstSpace(s);
    } else {
      JoinTakeSplit(s[FirstSpace(s) + 1..], k - 1);
      CutAfterFirstSpace(s, k);
    }
  }

  /** A string without spaces is its own only piece. */
  lemma CutWithoutSpace(s: string, k: nat)
    requires Space !in s && k >= 1
    ensures CutBeforeSpace(s, Join(Take(Split(s), k)), k)
  {
    NoSpaceNoCount(s);
    assert Take(Split(s), k) == [s];
  }

  /** The first piece of a split cuts `s` before its first space. */
  lemma CutAtFirstSpace(s: string)
    requires Space in s
    ensures CutBeforeSpace(s, Join(Take(Split(s), 1)), 1)
  {
    var i := FirstSpace(s);
    SpacesAtFirst(s);
    NoSpaceNoCount(s[..i]);
    assert Take(Split(s), 1) == [s[..i]];
  }

  /** Cutting after the first space reduces to cutting the rest one space earlier. */
  lemma CutAfterFirstSpace(s: string, k: nat)
    requires Space in s && k >= 2
    requires CutBeforeSpace(s[FirstSpace(s) + 1..], Join(Take(Split(s[FirstSpace(s) + 1..]), k - 1)), k - 1)
    ensures CutBeforeSpace(s, Join(Take(Split(s), k)), k)
  {
    var i := FirstSpace(s);
    JoinTakeSplitStep(s, k);
    CutBeforeSpaceCons(s, i, Join(Take(Split(s[i + 1..]), k - 1)), k);
  }

  /** Cutting `s` past a space at `i` with no space before it: cut the rest one space earlier. */
  lemma CutBeforeSpaceCons(s: string, i: nat, q: string, k: nat)
    requires i < |s| && s[i] == Space && Space !in s[..i] && k >= 2
    requires CutBeforeSpace(s[i + 1..], q, k - 1)
    ensures CutBeforeSpace(s, s[..i + 1] + q, k)
  {
    var rest := s[i + 1..];
    var p := s[..i + 1] + q;
    assert s == s[..i] + [Space] + rest;
    assert p == s[..i] + [Space] + q;
    SpacesPrefixed(s[..i], rest);
    SpacesPrefixed(s[..i], q);
    assert p <= s by {
      forall j | 0 <= j < |p| ensures p[j] == s[j] {
        if j > i { assert p[j] == q[j - i - 1]; }
      }
    }
    if Spaces(rest) < k - 1 { assert q == rest; }
  }

  /** One unfolding of JoinTakeSplit: the first piece, a space, then the rest. */
  lemma JoinTakeSplitStep(s: string, k: nat)
    requires Space in s && k >= 2
    ensures Join(Take(Split(s), k))
         == s[..FirstSpace(s) + 1] + Join(Take(Split(s[FirstSpace(s) + 1..]), k - 1))
  {
    var i := FirstSpace(s);
    var r := Split(s[i + 1..]);
    assert Split(s) == [s[..i]] + r;
    TakeCons(s[..i], r, k);
    assert s[..i + 1] == s[..i] + [Space];
  }

  lemma TakeCons<T>(x: T, r: seq<T>, k: nat)
    requires k >= 1
    ensures Take([x] + r, k) == [x] + Take(r, k - 1)
  {
    if k < |[x] + r| {
      assert ([x] + r)[..k] == [x] + r[..k - 1];
    }
  }

  // ---------------------------------------------------------------------
  // Decimal rendering of non-negative integers

  predicate IsDigit(c: char) { '0' <= c <= '9' }

  function DigitChar(d: nat): (c: char)
    requires d < 10
    ensures IsDigit(c) && c as int - '0' as int == d
  {
    ('0' as int + d) as char
  }

  /** The decimal string of `n`, as JavaScript's `String(n)` writes it. */
  function NatToString(n: nat): (s: string)
    ensures s != []
    ensures forall k :: 0 <= k < |s| ==> IsDigit(s[k])
    ensures s[0] == '0' ==> n == 0
  {
    if n < 10 then [DigitChar(n)] else NatToString(n / 10) + [DigitChar(n % 10)]
  }

  /** Reading a string of digits back as a number. */
  function ParseNat(s: string): nat
    requires forall k :: 0 <= k < |s| ==> IsDigit(s[k])
  {
    if s == [] then 0
    else assert IsDigit(s[|s| - 1]); ParseNat(s[..|s| - 1]) * 10 + (s[|s| - 1] as int - '0' as int)
  }

  /** Reading the decimal string of `n` gives back `n`. */
  lemma {:induction false} ParseNatToString(n: nat)
    ensures ParseNat(NatToString(n)) == n
  {
    var s := NatToString(n);
    if n >= 10 {
      assert s[..|s| - 1] == NatToString(n / 10);
      ParseNatToString(n / 10);
    }
  }

  /** Distinct numbers have distinct decimal strings. */
  lemma NatToStringInjective(a: nat, b: nat)
    requires NatToString(a) == NatToString(b)
    ensures a == b
  {
    ParseNatToString(a);
    ParseNatToString(b);
  }

  // ---------------------------------------------------------------------
  // Upper-casing the first character

  function ToUpper(c: char): (u: char)
    ensures 'a' <= c <= 'z' ==> u as int == c as int - 32
    ensures !('a' <= c <= 'z') ==> u == c
  {
    if 'a' <= c <= 'z' then (c as int - 32) as char else c
  }

  /** `s.charAt(0).toUpperCase() + s.slice(1)`. */
  function Capitalize(s: string): (r: string)
    ensures |r| == |s|
    ensures s != [] ==> r[0] == ToUpper(s[0]) && r[1..] == s[1..]
    ensures s == [] ==> r == []
  {
    if s == [] then [] else [ToUpper(s[0])] + s[1..]
  }
}
