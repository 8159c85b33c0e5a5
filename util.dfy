/** Small value types and text helpers shared by the modules of this project. */
module Util {

  datatype Option<T> = None | Some(value: T)

  datatype Result<T, E> = Ok(value: T) | Err(error: E)

  /** Every element occurs at most once. */
  ghost predicate Distinct<T>(s: seq<T>) {
    forall i, j :: 0 <= i < j < |s| ==> s[i] != s[j]
  }

  /** The set {0, ..., n - 1}. */
  ghost function Range(n: nat): set<nat> {
    if n == 0 then {} else Range(n - 1) + {n - 1}
  }

  lemma {:induction false} RangeSize(n: nat)
    ensures |Range(n)| == n
    ensures forall i: nat :: i in Range(n) <==> i < n
  {
    if n > 0 {
      RangeSize(n - 1);
    }
  }

  /** A set of indices below n has at most n elements. */
  lemma SubsetOfRangeSize(s: set<nat>, n: nat)
    requires forall i :: i in s ==> i < n
    ensures |s| <= n
  {
    RangeSize(n);
    assert s <= Range(n);
    SubsetCardinality(s, Range(n));
  }

  lemma SubsetCardinality<T>(a: set<T>, b: set<T>)
    requires a <= b
    ensures |a| <= |b|
  {
    assert b == a + (b - a);
  }

  /** Adding a new element to a set adds one to its size. */
  lemma AddFresh<T>(a: set<T>, x: T)
    requires x !in a
    ensures |a + {x}| == |a| + 1
  {
  }

  /** The size of a union of disjoint sets is the sum of their sizes. */
  lemma DisjointUnion<T>(a: set<T>, b: set<T>)
    requires forall x :: x in a ==> x !in b
    ensures |a + b| == |a| + |b|
  {
    assert a * b == {};
  }

  /** A sequence without repetitions has as many elements as its set. */
  lemma {:induction false} DistinctCardinality<T>(s: seq<T>)
    requires Distinct(s)
    ensures |set x | x in s| == |s|
  {
    if |s| > 0 {
      var init := s[..|s| - 1];
      DistinctCardinality(init);
      assert (set x | x in s) == (set x | x in init) + {s[|s| - 1]};
      assert s[|s| - 1] !in (set x | x in init);
    }
  }

  /** A repetition-free sequence of indices below n has at most n elements. */
  lemma DistinctBelowLength(s: seq<nat>, n: nat)
    requires Distinct(s)
    requires forall x :: x in s ==> x < n
    ensures |s| <= n
  {
    DistinctCardinality(s);
    SubsetOfRangeSize((set x | x in s), n);
  }

  // ---------------------------------------------------------------
  // Characters and strings (the C locale / ASCII view of characters)
  // ---------------------------------------------------------------

  predicate IsUpper(c: char) { 'A' <= c <= 'Z' }

  /** std::tolower / str.lower restricted to ASCII letters. */
  function LowerChar(c: char): (r: char)
    ensures !IsUpper(r)
    ensures IsUpper(c) || r == c
  {
    if IsUpper(c) then (c as int + 32) as char else c
  }

  function Lower(s: string): (r: string)
    ensures |r| == |s|
    ensures forall i :: 0 <= i < |s| ==> r[i] == LowerChar(s[i])
  {
    if s == [] then [] else [LowerChar(s[0])] + Lower(s[1..])
  }

  lemma {:induction false} LowerIdempotent(s: string)
    ensures Lower(Lower(s)) == Lower(s)
  {
    if s != [] {
      LowerIdempotent(s[1..]);
    }
  }

  predicate StartsWith(s: string, prefix: string) {
    |prefix| <= |s| && s[..|prefix|] == prefix
  }

  /** Substring test, `sub in s` in Python, `s.find(sub) != npos` in C++. */
  predicate Contains(s: string, sub: string)
    decreases |s|
  {
    StartsWith(s, sub) || (|s| > 0 && Contains(s[1..], sub))
  }

  /** Only a string at least as long as sub can contain it. */
  lemma {:induction false} ContainsLength(s: string, sub: string)
    ensures Contains(s, sub) ==> |sub| <= |s|
    decreases |s|
  {
    if |s| > 0 {
      ContainsLength(s[1..], sub);
    }
  }

  /** sub occurs in s starting at position i. */
  ghost predicate OccursAt(s: string, sub: string, i: int) {
    0 <= i && i + |sub| <= |s| && s[i..i + |sub|] == sub
  }

  /** Contains agrees with the direct definition: some window of s equals sub. */
  lemma {:induction false} ContainsIffOccurs(s: string, sub: string)
    ensures Contains(s, sub) <==> exists i :: OccursAt(s, sub, i)
    decreases |s|
  {
    if StartsWith(s, sub) {
      assert OccursAt(s, sub, 0);
    } else if |s| > 0 {
      ContainsIffOccurs(s[1..], sub);
      if Contains(s[1..], sub) {
        var i :| OccursAt(s[1..], sub, i);
        assert s[i + 1..i + 1 + |sub|] == s[1..][i..i + |sub|];
        assert OccursAt(s, sub, i + 1);
      } else {
        forall i | OccursAt(s, sub, i) ensures false {
          if i > 0 {
            assert s[1..][i - 1..i - 1 + |sub|] == s[i..i + |sub|];
            assert OccursAt(s[1..], sub, i - 1);
          }
        }
      }
    } else {
      forall i | OccursAt(s, sub, i) ensures false {
      }
    }
  }

  // ---------------------------------------------------------------
  // Splitting on a delimiter, as repeated std::getline(stream, tok, d)
  // ---------------------------------------------------------------

  /** Position of the first d in s, or |s| when there is none. */
  function IndexOf(s: string, d: char): (i: nat)
    ensures i <= |s|
    ensures i < |s| ==> s[i] == d
    ensures forall k :: 0 <= k < i ==> s[k] != d
  {
    if s == [] then 0
    else if s[0] == d then 0
    else 1 + IndexOf(s[1..], d)
  }

  /** The tokens std::getline(ss, tok, d) yields one after another: the pieces between
      delimiters, where a delimiter at the very end does not open an empty last piece,
      and the empty string yields no token at all. */
  function Split(s: string, d: char): (r: seq<string>)
    decreases |s|
  {
    if s == [] then []
    else
      var i := IndexOf(s, d);
      if i == |s| then [s] else [s[..i]] + Split(s[i + 1..], d)
  }

  lemma {:induction false} SplitTokensHaveNoDelimiter(s: string, d: char)
    ensures forall t :: t in Split(s, d) ==> d !in t
    decreases |s|
  {
    if s != [] {
      var i := IndexOf(s, d);
      if i < |s| {
        SplitTokensHaveNoDelimiter(s[i + 1..], d);
      }
    }
  }

  function Join(parts: seq<string>, sep: string): string {
    if |parts| == 0 then ""
    else if |parts| == 1 then parts[0]
    else parts[0] + sep + Join(parts[1..], sep)
  }

  predicate EndsWith(s: string, c: char) { |s| > 0 && s[|s| - 1] == c }

  /** Splitting loses nothing: joining the tokens back gives the line, up to the single
      delimiter at its end that std::getline swallows. */
  lemma {:induction false} SplitJoin(s: string, d: char)
    ensures Join(Split(s, d), [d]) + (if EndsWith(s, d) then [d] else []) == s
    decreases |s|
  {
    if s != [] {
      var i := IndexOf(s, d);
      if i == |s| {
        assert Split(s, d) == [s];
        assert !EndsWith(s, d);
      } else {
        var rest := s[i + 1..];
        if rest == [] {
          assert Split(s, d) == [s[..i]];
          assert EndsWith(s, d);
          assert s == s[..i] + [d];
        } else {
          SplitJoinStep(s, d, i, rest);
        }
      }
    }
  }

  /** The inductive step of SplitJoin: a delimiter followed by a non-empty rest. */
  lemma {:induction false} SplitJoinStep(s: string, d: char, i: nat, rest: string)
    requires i == IndexOf(s, d) < |s| && rest == s[i + 1..] && rest != []
    ensures Join(Split(s, d), [d]) + (if EndsWith(s, d) then [d] else []) == s
    decreases |s|, 0
  {
    var tail: string := if EndsWith(s, d) then [d] else [];
    assert EndsWith(s, d) == EndsWith(rest, d);
    var x := Split(rest, d);
    assert x != [] by {
      if IndexOf(rest, d) == |rest| {} else {}
    }
    assert Split(s, d) == [s[..i]] + x;
    JoinCons(s[..i], x, [d]);
    SplitJoin(rest, d);
    SplitAround(s, i, Join(x, [d]), tail);
  }

  lemma JoinCons(a: string, x: seq<string>, sep: string)
    requires x != []
    ensures Join([a] + x, sep) == a + sep + Join(x, sep)
  {
    assert ([a] + x)[1..] == x;
  }

  /** Reassembling s around its character at position i. */
  lemma SplitAround(s: string, i: nat, j: string, t: string)
    requires i < |s| && j + t == s[i + 1..]
    ensures s[..i] + [s[i]] + j + t == s
  {
    assert s[..i] + [s[i]] + j + t == s[..i] + [s[i]] + (j + t);
    assert s == s[..i] + [s[i]] + s[i + 1..];
  }

  /** The decimal digits of n, as Python's str(n) writes them. */
  function NatToString(n: nat): (r: string)
    ensures |r| > 0
    ensures forall k :: 0 <= k < |r| ==> '0' <= r[k] <= '9'
  {
    if n < 10 then [(48 + n) as char]
    else NatToString(n / 10) + [(48 + n % 10) as char]
  }

  // ---------------------------------------------------------------
  // Python's view of whitespace and digits
  // ---------------------------------------------------------------

  /** str.isspace: the ASCII blanks, the four information separators \x1c-\x1f, and the
      Unicode white space characters. */
  predicate IsPyWhitespace(c: char) {
    || c == ' ' || ('\t' <= c <= '\r') || ('\U{1c}' <= c <= '\U{1f}')
    || c == '\U{0085}' || c == '\U{00a0}' || c == '\U{1680}' || ('\U{2000}' <= c <= '\U{200a}')
    || c == '\U{2028}' || c == '\U{2029}' || c == '\U{202f}' || c == '\U{205f}' || c == '\U{3000}'
  }

  /** s with its leading white space removed. */
  function StripLeft(s: string): (r: string)
    ensures |r| <= |s| && r == s[|s| - |r|..]
    ensures r != [] ==> !IsPyWhitespace(r[0])
    ensures forall k :: 0 <= k < |s| - |r| ==> IsPyWhitespace(s[k])
  {
    if s != [] && IsPyWhitespace(s[0]) then StripLeft(s[1..]) else s
  }

  /** s with its trailing white space removed. */
  function StripRight(s: string): (r: string)
    ensures |r| <= |s| && r == s[..|r|]
    ensures r != [] ==> !IsPyWhitespace(r[|r| - 1])
    ensures forall k :: |r| <= k < |s| ==> IsPyWhitespace(s[k])
  {
    if s != [] && IsPyWhitespace(s[|s| - 1]) then StripRight(s[..|s| - 1]) else s
  }

  /** str.strip() without arguments. */
  function PyStrip(s: string): string {
    StripRight(StripLeft(s))
  }

  /** r is the piece of s at b, and everything of s around it is white space. */
  ghost predicate StrippedFrom(s: string, r: string, b: int) {
    && 0 <= b <= |s| - |r| && r == s[b..b + |r|]
    && (forall k :: 0 <= k < b ==> IsPyWhitespace(s[k]))
    && (forall k :: b + |r| <= k < |s| ==> IsPyWhitespace(s[k]))
  }

  /** strip() keeps a contiguous piece of s that neither starts nor ends with white space,
      and everything it removes is white space. */
  lemma PyStripSpec(s: string)
    ensures var r := PyStrip(s);
      r != [] ==> !IsPyWhitespace(r[0]) && !IsPyWhitespace(r[|r| - 1])
    ensures exists b :: StrippedFrom(s, PyStrip(s), b)
  {
    var l := StripLeft(s);
    var r := StripRight(l);
    var b := |s| - |l|;
    assert r == s[b..b + |r|];
    forall k | b + |r| <= k < |s| ensures IsPyWhitespace(s[k]) {
      assert s[k] == l[k - b];
    }
    assert StrippedFrom(s, r, b);
  }

  /** A string without white space at either end is its own strip. */
  lemma PyStripNoop(s: string)
    requires s != [] ==> !IsPyWhitespace(s[0]) && !IsPyWhitespace(s[|s| - 1])
    ensures PyStrip(s) == s
  {
  }

  /** Stripping twice is stripping once. */
  lemma PyStripIdempotent(s: string)
    ensures PyStrip(PyStrip(s)) == PyStrip(s)
  {
    PyStripSpec(s);
    PyStripNoop(PyStrip(s));
  }

  predicate IsDigit(c: char) { '0' <= c <= '9' }

  /** The number a string of decimal digits denotes, as int() or float() reads it. */
  function DigitsValue(ds: string): (v: nat)
    requires forall k :: 0 <= k < |ds| ==> IsDigit(ds[k])
  {
    if ds == [] then 0
    else
      assert IsDigit(ds[|ds| - 1]);
      DigitsValue(ds[..|ds| - 1]) * 10 + (ds[|ds| - 1] as int - '0' as int)
  }

  /** n digits denote a number below 10^n; in particular at most three denote at most 999. */
  lemma {:induction false} DigitsValueBound(ds: string)
    requires forall k :: 0 <= k < |ds| ==> IsDigit(ds[k])
    ensures DigitsValue(ds) < Pow10(|ds|)
    ensures |ds| <= 3 ==> DigitsValue(ds) <= 999
  {
    if ds != [] {
      DigitsValueBound(ds[..|ds| - 1]);
    }
    if |ds| <= 3 {
      Pow10Small(|ds|);
    }
  }

  function Pow10(n: nat): (p: nat)
    ensures p >= 1
  {
    if n == 0 then 1 else 10 * Pow10(n - 1)
  }

  lemma Pow10Small(n: nat)
    requires n <= 3
    ensures Pow10(n) <= 1000
  {
    assert Pow10(1) == 10;
    assert Pow10(2) == 100;
    assert Pow10(3) == 1000;
  }

  /** Each part of a join occurs in it. */
  lemma {:induction false} JoinContainsPart(parts: seq<string>, sep: string, k: nat)
    requires k < |parts|
    ensures exists i :: OccursAt(Join(parts, sep), parts[k], i)
  {
    var j := Join(parts, sep);
    if |parts| == 1 {
      assert j == parts[0];
      assert OccursAt(j, parts[k], 0);
    } else {
      var rest := Join(parts[1..], sep);
      assert j == parts[0] + sep + rest;
      if k == 0 {
        assert j[0..|parts[0]|] == parts[0];
        assert OccursAt(j, parts[k], 0);
      } else {
        JoinContainsPart(parts[1..], sep, k - 1);
        var i :| OccursAt(rest, parts[1..][k - 1], i);
        var off := |parts[0]| + |sep|;
        assert j[off..] == rest;
        assert j[off + i..off + i + |parts[k]|] == rest[i..i + |parts[k]|];
        assert OccursAt(j, parts[k], off + i);
      }
    }
  }
}
