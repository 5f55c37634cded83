/**
 * The three pieces of Python's string library that the genre code relies on:
 * `str.split(sep)` with an explicit one-character separator, `str.strip()` with
 * no argument, and the `<` ordering that `sorted` uses on strings (code point
 * by code point, a proper prefix first). Strings are sequences of Unicode
 * scalar values; a Python `str` may also hold lone surrogate code points,
 * which a `char` cannot.
 */
module Text {

  // ---------------------------------------------------------------------------
  // Whitespace and strip()
  // ---------------------------------------------------------------------------

  /** Python's `str.isspace` for a single character: the characters `strip()` removes. */
  predicate IsSpace(c: char) {
    || ('\t' <= c <= '\r')
    || ('\U{1C}' <= c <= '\U{1F}')
    || c == ' '
    || c == '\U{85}'
    || c == '\U{A0}'
    || c == '\U{1680}'
    || ('\U{2000}' <= c <= '\U{200A}')
    || c == '\U{2028}'
    || c == '\U{2029}'
    || c == '\U{202F}'
    || c == '\U{205F}'
    || c == '\U{3000}'
  }

  predicate AllSpace(s: string) {
    forall i :: 0 <= i < |s| ==> IsSpace(s[i])
  }

  /** Neither the first nor the last character is whitespace. */
  predicate IsTrimmed(s: string) {
    s == [] || (!IsSpace(s[0]) && !IsSpace(s[|s| - 1]))
  }

  /** Drops leading whitespace. */
  function TrimStart(s: string): string {
    if s != [] && IsSpace(s[0]) then TrimStart(s[1..]) else s
  }

  /** Drops trailing whitespace. */
  function TrimEnd(s: string): string {
    if s != [] && IsSpace(s[|s| - 1]) then TrimEnd(s[..|s| - 1]) else s
  }

  /** What TrimStart drops is all whitespace, and what it keeps is a suffix that starts with none. */
  lemma {:induction false} TrimStartSpec(s: string)
    ensures |TrimStart(s)| <= |s| && TrimStart(s) == s[|s| - |TrimStart(s)|..]
    ensures AllSpace(s[..|s| - |TrimStart(s)|])
    ensures TrimStart(s) == [] || !IsSpace(TrimStart(s)[0])
  {
    if s != [] && IsSpace(s[0]) {
      TrimStartSpec(s[1..]);
      var r := TrimStart(s);
      assert s[1..][..|s| - 1 - |r|] == s[1..|s| - |r|];
    }
  }

  /** What TrimEnd drops is all whitespace, and what it keeps is a prefix that ends with none. */
  lemma {:induction false} TrimEndSpec(s: string)
    ensures |TrimEnd(s)| <= |s| && TrimEnd(s) == s[..|TrimEnd(s)|]
    ensures AllSpace(s[|TrimEnd(s)|..])
    ensures TrimEnd(s) == [] || !IsSpace(TrimEnd(s)[|TrimEnd(s)| - 1])
  {
    if s != [] && IsSpace(s[|s| - 1]) {
      var n := |s| - 1;
      var init := s[..n];
      TrimEndSpec(init);
      var r := TrimEnd(s);
      assert r == TrimEnd(init);
      assert r == init[..|r|] == s[..|r|];
      assert s[|r|..] == init[|r|..] + [s[n]];
      assert AllSpace(init[|r|..]);
      assert AllSpace(s[|r|..]) by {
        forall i | 0 <= i < |s| - |r|
          ensures IsSpace(s[|r|..][i])
        {
          if i < n - |r| {
            assert s[|r|..][i] == init[|r|..][i];
          } else {
            assert s[|r|..][i] == s[n];
          }
        }
      }
    }
  }

  /** Python's `s.strip()`. */
  function Strip(s: string): (r: string)
    ensures IsTrimmed(r)
  {
    TrimStartSpec(s);
    TrimEndSpec(TrimStart(s));
    TrimEnd(TrimStart(s))
  }

  /** strip() keeps a contiguous infix and removes only whitespace around it. */
  lemma StripIsInfix(s: string) returns (i: nat, j: nat)
    ensures i <= j <= |s| && Strip(s) == s[i..j]
    ensures AllSpace(s[..i]) && AllSpace(s[j..])
  {
    var t := TrimStart(s);
    TrimStartSpec(s);
    TrimEndSpec(t);
    i := |s| - |t|;
    j := i + |TrimEnd(t)|;
    assert t == s[i..];
    assert TrimEnd(t) == t[..j - i] == s[i..j];
    assert t[j - i..] == s[j..];
  }

  /** strip() leaves a string that has no surrounding whitespace unchanged (so it is idempotent). */
  lemma {:induction false} StripTrimmed(s: string)
    requires IsTrimmed(s)
    ensures Strip(s) == s
  {
    if s != [] {
      assert TrimStart(s) == s;
      assert TrimEnd(s) == s;
    }
  }

  lemma {:induction false} TrimStartAllSpace(s: string)
    requires AllSpace(s)
    ensures TrimStart(s) == []
  {
    if s != [] {
      TrimStartAllSpace(s[1..]);
    }
  }

  /** strip() yields the empty string exactly when the input is all whitespace. */
  lemma StripEmpty(s: string)
    ensures Strip(s) == [] <==> AllSpace(s)
  {
    var i, j := StripIsInfix(s);
    if AllSpace(s) {
      TrimStartAllSpace(s);
    }
    TrimStartSpec(s);
    if Strip(s) == [] {
      assert i == j;
      forall k | 0 <= k < |s| ensures IsSpace(s[k]) {
        if k < i { assert s[..i][k] == s[k]; } else { assert s[j..][k - j] == s[k]; }
      }
    }
  }

  // ---------------------------------------------------------------------------
  // split(sep)
  // ---------------------------------------------------------------------------

  /**
   * Python's `s.split(sep)` for a one-character separator: the pieces between
   * separators, empty pieces included, so `""` splits into `[""]`.
   */
  function Split(s: string, sep: char): (parts: seq<string>)
    ensures |parts| >= 1
  {
    if s == [] then [[]]
    else
      var rest := Split(s[1..], sep);
      if s[0] == sep then [[]] + rest else [[s[0]] + rest[0]] + rest[1..]
  }

  /** No piece holds the separator. */
  lemma {:induction false} SplitNoSeparator(s: string, sep: char)
    ensures forall k :: 0 <= k < |Split(s, sep)| ==> sep !in Split(s, sep)[k]
  {
    if s != [] {
      SplitNoSeparator(s[1..], sep);
    }
  }

  /** Python's `sep.join(parts)`, the inverse of Split. */
  function Join(parts: seq<string>, sep: char): string
    requires |parts| >= 1
  {
    if |parts| == 1 then parts[0] else parts[0] + [sep] + Join(parts[1..], sep)
  }

  lemma JoinConsChar(c: char, parts: seq<string>, sep: char)
    requires |parts| >= 1
    ensures Join([[c] + parts[0]] + parts[1..], sep) == [c] + Join(parts, sep)
  {
    var parts' := [[c] + parts[0]] + parts[1..];
    assert parts'[1..] == parts[1..];
  }

  lemma JoinConsEmpty(parts: seq<string>, sep: char)
    requires |parts| >= 1
    ensures Join([[]] + parts, sep) == [sep] + Join(parts, sep)
  {
    assert ([[]] + parts)[1..] == parts;
  }

  /** Splitting loses nothing: joining the pieces back gives the original string. */
  lemma {:induction false} JoinSplit(s: string, sep: char)
    ensures Join(Split(s, sep), sep) == s
  {
    if s != [] {
      var rest := Split(s[1..], sep);
      JoinSplit(s[1..], sep);
      assert s == [s[0]] + s[1..];
      if s[0] == sep {
        JoinConsEmpty(rest, sep);
      } else {
        JoinConsChar(s[0], rest, sep);
      }
    }
  }

  /** A separator-free prefix glues onto the first piece of what follows it. */
  lemma {:induction false} SplitPrefix(x: string, y: string, sep: char)
    requires sep !in x
    ensures Split(x + y, sep) == [x + Split(y, sep)[0]] + Split(y, sep)[1..]
  {
    var parts := Split(y, sep);
    if x == [] {
      assert x + y == y && x + parts[0] == parts[0];
      assert parts == [parts[0]] + parts[1..];
    } else {
      SplitPrefix(x[1..], y, sep);
      assert (x + y)[0] == x[0] && (x + y)[1..] == x[1..] + y;
      var rest := Split(x[1..] + y, sep);
      assert rest[0] == x[1..] + parts[0] && rest[1..] == parts[1..];
      assert [x[0]] + (x[1..] + parts[0]) == x + parts[0];
    }
  }

  /** Joining separator-free pieces and splitting again gives back the same pieces. */
  lemma {:induction false} SplitJoin(parts: seq<string>, sep: char)
    requires |parts| >= 1
    requires forall k :: 0 <= k < |parts| ==> sep !in parts[k]
    ensures Split(Join(parts, sep), sep) == parts
  {
    if |parts| == 1 {
      SplitPrefix(parts[0], [], sep);
      assert parts[0] + [] == parts[0];
    } else {
      var tail := Join(parts[1..], sep);
      SplitJoin(parts[1..], sep);
      SplitPrefix(parts[0], [sep] + tail, sep);
      assert parts[0] + [sep] + tail == parts[0] + ([sep] + tail);
      assert Split([sep] + tail, sep) == [[]] + parts[1..] by {
        assert ([sep] + tail)[1..] == tail;
      }
      assert parts[0] + [] == parts[0];
    }
  }

  // ---------------------------------------------------------------------------
  // The order of Python's `<` on strings
  // ---------------------------------------------------------------------------

  /** `a < b` on Python strings: lexicographic by code point, a proper prefix first. */
  predicate Below(a: string, b: string) {
    if a == [] then b != []
    else b != [] && (a[0] < b[0] || (a[0] == b[0] && Below(a[1..], b[1..])))
  }

  lemma {:induction false} BelowIrreflexive(a: string)
    ensures !Below(a, a)
  {
    if a != [] {
      BelowIrreflexive(a[1..]);
    }
  }

  lemma {:induction false} BelowTransitive(a: string, b: string, c: string)
    requires Below(a, b) && Below(b, c)
    ensures Below(a, c)
  {
    if a != [] && a[0] == b[0] && b[0] == c[0] {
      BelowTransitive(a[1..], b[1..], c[1..]);
    }
  }

  /** Any two different strings are ordered one way or the other. */
  lemma {:induction false} BelowTotal(a: string, b: string)
    ensures a == b || Below(a, b) || Below(b, a)
  {
    if a != [] && b != [] && a[0] == b[0] {
      BelowTotal(a[1..], b[1..]);
      if a[1..] == b[1..] {
        assert a == [a[0]] + a[1..] && b == [b[0]] + b[1..];
      }
    }
  }

  lemma BelowAsymmetric(a: string, b: string)
    requires Below(a, b)
    ensures !Below(b, a)
  {
    if Below(b, a) {
      BelowTransitive(a, b, a);
      BelowIrreflexive(a);
    }
  }

  // ---------------------------------------------------------------------------
  // sorted(set_of_strings)
  // ---------------------------------------------------------------------------

  function Elems(r: seq<string>): set<string> {
    set x | x in r
  }

  lemma ElemsEmpty(r: seq<string>)
    ensures Elems(r) == {} <==> r == []
  {
    if r != [] {
      assert r[0] in Elems(r);
    }
  }

  /** Every later element is above every earlier one: sorted and free of duplicates. */
  predicate StrictlyAscending(r: seq<string>) {
    forall i, j :: 0 <= i < j < |r| ==> Below(r[i], r[j])
  }

  lemma AscendingPrepend(x: string, r: seq<string>)
    requires StrictlyAscending(r)
    requires forall y :: y in r ==> Below(x, y)
    ensures StrictlyAscending([x] + r)
  {
    var r' := [x] + r;
    forall i, j | 0 <= i < j < |r'| ensures Below(r'[i], r'[j]) {
      if i == 0 { assert r'[j] == r[j - 1]; }
    }
  }

  lemma AscendingTail(r: seq<string>)
    requires StrictlyAscending(r) && r != []
    ensures StrictlyAscending(r[1..])
    ensures Elems(r[1..]) == Elems(r) - {r[0]}
    ensures forall y :: y in r[1..] ==> Below(r[0], y)
  {
    if r[0] in r[1..] {
      var j :| 0 <= j < |r[1..]| && r[1..][j] == r[0];
      assert Below(r[0], r[j + 1]);
      BelowIrreflexive(r[0]);
    }
    assert r == [r[0]] + r[1..];
  }

  /** Adds one string to a sorted, duplicate-free sequence, keeping it so. */
  function Insert(r: seq<string>, x: string): (r': seq<string>)
    requires StrictlyAscending(r)
    ensures StrictlyAscending(r') && Elems(r') == Elems(r) + {x}
  {
    if r == [] then [x]
    else if x == r[0] then r
    else if Below(x, r[0]) then
      AscendingTail(r);
      assert forall y :: y in r[1..] ==> Below(x, y) by {
        forall y | y in r[1..] ensures Below(x, y) { BelowTransitive(x, r[0], y); }
      }
      AscendingPrepend(x, r);
      [x] + r
    else
      AscendingTail(r);
      BelowTotal(x, r[0]);
      var rest := Insert(r[1..], x);
      assert forall y :: y in rest ==> y in Elems(rest);
      AscendingPrepend(r[0], rest);
      assert r == [r[0]] + r[1..];
      assert Elems([r[0]] + rest) == {r[0]} + Elems(rest);
      [r[0]] + rest
  }

  ghost predicate IsLeast(m: string, s: set<string>) {
    m in s && forall y :: y in s && y != m ==> Below(m, y)
  }

  lemma {:induction false} LeastExists(s: set<string>)
    requires s != {}
    ensures exists m :: IsLeast(m, s)
    decreases s
  {
    var x :| x in s;
    if s == {x} {
      assert IsLeast(x, s);
    } else {
      LeastExists(s - {x});
      var m :| IsLeast(m, s - {x});
      BelowTotal(m, x);
      if Below(m, x) {
        assert IsLeast(m, s);
      } else {
        forall y | y in s && y != x ensures Below(x, y) {
          if y != m { BelowTransitive(x, m, y); }
        }
        assert IsLeast(x, s);
      }
    }
  }

  /** The reference definition of `sorted(s)`: the least element first, then the rest sorted. */
  ghost function SortedSet(s: set<string>): (r: seq<string>)
    ensures StrictlyAscending(r) && Elems(r) == s
    decreases s
  {
    if s == {} then []
    else
      LeastExists(s);
      var m :| IsLeast(m, s);
      var rest := SortedSet(s - {m});
      assert forall y :: y in rest ==> y in Elems(rest);
      AscendingPrepend(m, rest);
      assert Elems([m] + rest) == {m} + Elems(rest);
      [m] + rest
  }

  /** A set has exactly one strictly ascending listing. */
  lemma {:induction false} AscendingUnique(a: seq<string>, b: seq<string>)
    requires StrictlyAscending(a) && StrictlyAscending(b)
    requires Elems(a) == Elems(b)
    ensures a == b
    decreases |a|
  {
    if a == [] {
      ElemsEmpty(b);
    } else {
      assert a[0] in Elems(b);
      assert b != [];
      assert a == [a[0]] + a[1..] && b == [b[0]] + b[1..];
      AscendingTail(a);
      AscendingTail(b);
      if a[0] != b[0] {
        assert b[0] in Elems(b) && b[0] in a;
        assert b[0] in a[1..];
        assert a[0] in b[1..];
        BelowAsymmetric(a[0], b[0]);
      }
      AscendingUnique(a[1..], b[1..]);
    }
  }

  /**
   * Python's `sorted(s)` on a set of strings: the strictly ascending listing of
   * the set, which is the reference definition SortedSet.
   */
  method SortSet(s: set<string>) returns (r: seq<string>)
    ensures r == SortedSet(s)
  {
    r := [];
    var rest := s;
    while rest != {}
      invariant rest <= s
      invariant StrictlyAscending(r) && Elems(r) == s - rest
      decreases rest
    {
      var x :| x in rest;
      r := Insert(r, x);
      rest := rest - {x};
    }
    AscendingUnique(r, SortedSet(s));
  }
}
