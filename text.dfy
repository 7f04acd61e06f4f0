/**
 * ASCII-level models of the Python string operations the scripts rely on:
 * `str.strip()`, `str.lower()`, `str.join()`, `str.split()` on one character,
 * and the ordering Python uses when it compares two strings.
 */
module Text {

  /** `str.isspace()` on the ASCII range: space, \t \n \v \f \r and the
      separator controls 0x1C-0x1F. */
  predicate IsSpace(c: char) {
    var n := c as int;
    n == 32 || 9 <= n <= 13 || 28 <= n <= 31
  }

  /** `str.lstrip()`: the suffix left once the leading whitespace is gone. */
  function TrimStart(s: string): (r: string)
    ensures |r| <= |s| && r == s[|s| - |r|..]
    ensures forall i | 0 <= i < |s| - |r| :: IsSpace(s[i])
    ensures r == [] || !IsSpace(r[0])
  {
    if s != [] && IsSpace(s[0]) then TrimStart(s[1..]) else s
  }

  /** `str.rstrip()`: the prefix left once the trailing whitespace is gone. */
  function TrimEnd(s: string): (r: string)
    ensures |r| <= |s| && r == s[..|r|]
    ensures forall i | |r| <= i < |s| :: IsSpace(s[i])
    ensures r == [] || !IsSpace(r[|r| - 1])
  {
    if s != [] && IsSpace(s[|s| - 1]) then TrimEnd(s[..|s| - 1]) else s
  }

  /** `str.strip()` with no argument. */
  function Strip(s: string): (r: string)
    ensures |r| <= |s|
    ensures r == [] || (!IsSpace(r[0]) && !IsSpace(r[|r| - 1]))
  {
    TrimEnd(TrimStart(s))
  }

  /** `s[a..b]` is what is left of `s` once the whitespace at both ends is
      removed: only whitespace outside it, none at its two ends. */
  ghost predicate IsStrippedSlice(s: string, a: int, b: int) {
    && 0 <= a <= b <= |s|
    && (forall i | 0 <= i < a :: IsSpace(s[i]))
    && (forall i | b <= i < |s| :: IsSpace(s[i]))
    && (a < b ==> !IsSpace(s[a]) && !IsSpace(s[b - 1]))
  }

  /** Strip agrees with the slice characterisation above, whichever bounds
      witness it. */
  lemma StripIsStrippedSlice(s: string, a: int, b: int)
    requires IsStrippedSlice(s, a, b)
    ensures Strip(s) == s[a..b]
  {
    if a == b {
      assert forall i | 0 <= i < |s| :: IsSpace(s[i]);
      AllSpaceStrips(s);
    } else {
      InnerSliceStrips(s, a, b);
    }
  }

  lemma AllSpaceStrips(s: string)
    requires forall i | 0 <= i < |s| :: IsSpace(s[i])
    ensures Strip(s) == []
  {
    assert TrimStart(s) == [];
  }

  lemma InnerSliceStrips(s: string, a: int, b: int)
    requires IsStrippedSlice(s, a, b) && a < b
    ensures Strip(s) == s[a..b]
  {
    TrimStartAt(s, a);
    assert s[a..][b - a..] == s[b..];
    TrimEndAt(s[a..], b - a);
    assert s[a..][..b - a] == s[a..b];
  }

  /** Left-stripping stops at the first non-space character. */
  lemma TrimStartAt(s: string, a: int)
    requires 0 <= a < |s| && !IsSpace(s[a])
    requires forall i | 0 <= i < a :: IsSpace(s[i])
    ensures TrimStart(s) == s[a..]
  {
    var r := TrimStart(s);
    assert |s| - |r| >= a;
  }

  /** Right-stripping stops at the last non-space character. */
  lemma TrimEndAt(s: string, b: int)
    requires 0 < b <= |s| && !IsSpace(s[b - 1])
    requires forall i | b <= i < |s| :: IsSpace(s[i])
    ensures TrimEnd(s) == s[..b]
  {
    var r := TrimEnd(s);
    assert |r| <= b;
  }

  /** Stripping twice is stripping once. */
  lemma StripIdempotent(s: string)
    ensures Strip(Strip(s)) == Strip(s)
  {
    var r := Strip(s);
    StripIsStrippedSlice(r, 0, |r|);
  }

  /** `str.lower()` on ASCII letters; every other character is kept. */
  function LowerChar(c: char): (r: char)
    ensures IsSpace(r) <==> IsSpace(c)
    ensures 'A' <= c <= 'Z' ==> r as int == c as int + 32
  {
    if 'A' <= c <= 'Z' then (c as int + 32) as char else c
  }

  function Lower(s: string): (r: string)
    ensures |r| == |s|
  {
    if s == [] then [] else [LowerChar(s[0])] + Lower(s[1..])
  }

  lemma {:induction false} LowerAppend(a: string, b: string)
    ensures Lower(a + b) == Lower(a) + Lower(b)
  {
    if a != [] {
      assert (a + b)[1..] == a[1..] + b;
      LowerAppend(a[1..], b);
    } else {
      assert a + b == b;
    }
  }

  /** Lower-casing twice is lower-casing once. */
  lemma {:induction false} LowerIdempotent(s: string)
    ensures Lower(Lower(s)) == Lower(s)
  {
    if s != [] {
      LowerIdempotent(s[1..]);
    }
  }

  /** Lower-casing does not move whitespace, so it commutes with strip. */
  lemma LowerStripCommute(s: string)
    ensures Lower(Strip(s)) == Strip(Lower(s))
  {
    LowerTrimStart(s);
    LowerTrimEnd(TrimStart(s));
  }

  lemma {:induction false} LowerTrimStart(s: string)
    ensures Lower(TrimStart(s)) == TrimStart(Lower(s))
  {
    if s != [] {
      var low := Lower(s);
      assert low[0] == LowerChar(s[0]) && low[1..] == Lower(s[1..]);
      if IsSpace(s[0]) {
        LowerTrimStart(s[1..]);
      }
    }
  }

  lemma {:induction false} LowerTrimEnd(s: string)
    ensures Lower(TrimEnd(s)) == TrimEnd(Lower(s))
  {
    if s != [] {
      var init := s[..|s| - 1];
      LowerAppend(init, [s[|s| - 1]]);
      assert s == init + [s[|s| - 1]];
      assert Lower([s[|s| - 1]]) == [LowerChar(s[|s| - 1])];
      if IsSpace(s[|s| - 1]) {
        assert Lower(s)[..|s| - 1] == Lower(init);
        LowerTrimEnd(init);
      }
    }
  }

  /** `sep.join(parts)`. */
  function Join(sep: string, parts: seq<string>): string
  {
    if parts == [] then ""
    else if |parts| == 1 then parts[0]
    else parts[0] + sep + Join(sep, parts[1..])
  }

  /** Joining splits at any inner boundary: the parts before it and the
      parts after it, joined separately, with one separator between. */
  lemma {:induction false} JoinSplit(sep: string, parts: seq<string>, i: int)
    requires 0 < i < |parts|
    ensures Join(sep, parts) == Join(sep, parts[..i]) + sep + Join(sep, parts[i..])
  {
    if i == 1 {
      assert parts[..1] == [parts[0]];
      assert parts[1..] == parts[i..];
    } else {
      JoinSplit(sep, parts[1..], i - 1);
      assert parts[1..][..i - 1] == parts[..i][1..];
      assert parts[1..][i - 1..] == parts[i..];
    }
  }

  /** A join of several parts begins with the first of them. */
  lemma {:induction false} JoinStartsWithFirst(sep: string, parts: seq<string>)
    requires parts != []
    ensures parts[0] <= Join(sep, parts)
  {
  }

  /** Being a prefix is transitive. */
  lemma PrefixTransitive(a: string, b: string, c: string)
    requires a <= b && b <= c
    ensures a <= c
  {
    assert a == b[..|a|] && b == c[..|b|];
    assert a == c[..|a|];
  }

  /** A join of several parts ends with the last of them. */
  lemma {:induction false} JoinEndsWithLast(sep: string, parts: seq<string>)
    requires parts != []
    ensures var j := Join(sep, parts); var p := parts[|parts| - 1];
            |p| <= |j| && j[|j| - |p|..] == p
  {
    if |parts| > 1 {
      JoinEndsWithLast(sep, parts[1..]);
    }
  }

  /** `s.split(c)` for a single character `c`: the pieces between the
      occurrences of `c`, always at least one. */
  function SplitOn(s: string, c: char): (r: seq<string>)
    ensures |r| >= 1
    ensures forall i | 0 <= i < |r| :: c !in r[i]
  {
    if s == [] then [""]
    else
      var rest := SplitOn(s[1..], c);
      if s[0] == c then [""] + rest else [[s[0]] + rest[0]] + rest[1..]
  }

  /** Joining the pieces of a split with the same character gives the text back. */
  lemma {:induction false} JoinSplitOn(s: string, c: char)
    ensures Join([c], SplitOn(s, c)) == s
  {
    if s != [] {
      var rest := SplitOn(s[1..], c);
      JoinSplitOn(s[1..], c);
      if s[0] == c {
        assert SplitOn(s, c) == [""] + rest;
        assert ([""] + rest)[1..] == rest;
      } else {
        var r := [[s[0]] + rest[0]] + rest[1..];
        if |rest| > 1 {
          assert r[1..] == rest[1..];
          assert Join([c], rest) == rest[0] + [c] + Join([c], rest[1..]);
        }
      }
    }
  }

  /** Splitting a join of pieces free of `c` gives the pieces back. */
  lemma {:induction false} SplitOnJoin(parts: seq<string>, c: char)
    requires parts != []
    requires forall i | 0 <= i < |parts| :: c !in parts[i]
    ensures SplitOn(Join([c], parts), c) == parts
  {
    if |parts| == 1 {
      SplitOnFree(parts[0], c);
    } else {
      SplitOnJoin(parts[1..], c);
      SplitOnPrefix(parts[0], c, Join([c], parts[1..]));
      assert Join([c], parts) == parts[0] + ([c] + Join([c], parts[1..]));
    }
  }

  /** A text free of `c` splits into itself alone. */
  lemma {:induction false} SplitOnFree(s: string, c: char)
    requires c !in s
    ensures SplitOn(s, c) == [s]
  {
    if s != [] {
      SplitOnFree(s[1..], c);
      assert [s[0]] + s[1..] == s;
    }
  }

  /** A piece free of `c`, then `c`, then anything: the piece is split off first. */
  lemma {:induction false} SplitOnPrefix(p: string, c: char, t: string)
    requires c !in p
    ensures SplitOn(p + [c] + t, c) == [p] + SplitOn(t, c)
  {
    var s := p + [c] + t;
    if p == [] {
      assert s[1..] == t;
    } else {
      assert s[1..] == p[1..] + [c] + t;
      SplitOnPrefix(p[1..], c, t);
      assert [p[0]] + p[1..] == p;
    }
  }

  /** Python's `<` on strings: code point by code point, a proper prefix first. */
  predicate LexLess(a: string, b: string) {
    if a == [] then b != []
    else if b == [] then false
    else if a[0] != b[0] then a[0] < b[0]
    else LexLess(a[1..], b[1..])
  }

  /** A common prefix does not change how two strings compare. */
  lemma {:induction false} LexLessCommonPrefix(p: string, a: string, b: string)
    ensures LexLess(p + a, p + b) <==> LexLess(a, b)
  {
    if p != [] {
      assert (p + a)[0] == p[0] == (p + b)[0];
      assert (p + a)[1..] == p[1..] + a;
      assert (p + b)[1..] == p[1..] + b;
      LexLessCommonPrefix(p[1..], a, b);
    } else {
      assert p + a == a && p + b == b;
    }
  }

  /** `c * n`: n copies of one character. */
  function Repeat(c: char, n: nat): (r: string)
    ensures |r| == n
    ensures forall i | 0 <= i < n :: r[i] == c
  {
    seq(n, _ => c)
  }
}
