/**
 ASCII models of the Python string operations the scraper and the chat session
 rely on: `str.strip`, `str.lower`, `str.upper`, `str.split` and `str.join` with a
 one-character separator, counting a character, the regex class `\s`, and the
 decimal rendering of a natural number in an f-string.
 */
module Text {
  import opened Sequences

  /** Python's whitespace test restricted to ASCII: tab, line feed, vertical tab,
      form feed, carriage return (9..13), the separators 0x1C..0x1F and space. */
  predicate IsSpace(c: char) {
    9 <= c as int <= 13 || 28 <= c as int <= 32
  }

  predicate AllSpace(s: string) {
    forall i :: 0 <= i < |s| ==> IsSpace(s[i])
  }

  /** A string with no whitespace at either end. */
  predicate Trimmed(s: string) {
    s == [] || (!IsSpace(s[0]) && !IsSpace(s[|s| - 1]))
  }

  /** Length of the run of whitespace that starts `s`. */
  function LeadingSpaces(s: string): (n: nat)
    ensures n <= |s|
  {
    if s == [] || !IsSpace(s[0]) then 0 else 1 + LeadingSpaces(s[1..])
  }

  /** Length of the run of whitespace that ends `s`. */
  function TrailingSpaces(s: string): (n: nat)
    ensures n <= |s|
  {
    if s == [] || !IsSpace(s[|s| - 1]) then 0 else 1 + TrailingSpaces(s[..|s| - 1])
  }

  /** The leading run is all whitespace and is followed by a non-space, if anything. */
  lemma {:induction false} LeadingSpacesSpec(s: string)
    ensures AllSpace(s[..LeadingSpaces(s)])
    ensures LeadingSpaces(s) < |s| ==> !IsSpace(s[LeadingSpaces(s)])
  {
    if s != [] && IsSpace(s[0]) {
      LeadingSpacesSpec(s[1..]);
      assert s[..LeadingSpaces(s)] == [s[0]] + s[1..][..LeadingSpaces(s[1..])];
    }
  }

  /** The trailing run is all whitespace and is preceded by a non-space, if anything. */
  lemma {:induction false} TrailingSpacesSpec(s: string)
    ensures AllSpace(s[|s| - TrailingSpaces(s)..])
    ensures TrailingSpaces(s) < |s| ==> !IsSpace(s[|s| - 1 - TrailingSpaces(s)])
  {
    if s != [] && IsSpace(s[|s| - 1]) {
      var init := s[..|s| - 1];
      TrailingSpacesSpec(init);
      assert s[|s| - TrailingSpaces(s)..] == init[|init| - TrailingSpaces(init)..] + [s[|s| - 1]];
    }
  }

  /** The leading run ends no later than the first character that is not whitespace. */
  lemma {:induction false} LeadingSpacesBound(s: string, j: nat)
    requires j < |s| && !IsSpace(s[j])
    ensures LeadingSpaces(s) <= j
  {
    if j > 0 && IsSpace(s[0]) {
      LeadingSpacesBound(s[1..], j - 1);
    }
  }

  lemma {:induction false} LeadingSpacesPadded(w: string, rest: string)
    requires AllSpace(w)
    requires rest == [] || !IsSpace(rest[0])
    ensures LeadingSpaces(w + rest) == |w|
  {
    if w != [] {
      assert (w + rest)[1..] == w[1..] + rest;
      LeadingSpacesPadded(w[1..], rest);
    } else {
      assert w + rest == rest;
    }
  }

  lemma {:induction false} TrailingSpacesPadded(rest: string, w: string)
    requires AllSpace(w)
    requires rest == [] || !IsSpace(rest[|rest| - 1])
    ensures TrailingSpaces(rest + w) == |w|
  {
    if w != [] {
      assert (rest + w)[..|rest + w| - 1] == rest + w[..|w| - 1];
      TrailingSpacesPadded(rest, w[..|w| - 1]);
    } else {
      assert rest + w == rest;
    }
  }

  /** `t` without its trailing whitespace run. */
  function DropTrailing(t: string): (r: string)
    ensures |r| <= |t|
  {
    t[..|t| - TrailingSpaces(t)]
  }

  /** Python's `s.strip()`. */
  function Strip(s: string): (r: string)
    ensures |r| <= |s|
  {
    DropTrailing(s[LeadingSpaces(s)..])
  }

  lemma DropTrailingSpec(t: string)
    ensures t == DropTrailing(t) + t[|DropTrailing(t)|..]
    ensures AllSpace(t[|DropTrailing(t)|..])
    ensures DropTrailing(t) == [] || !IsSpace(DropTrailing(t)[|DropTrailing(t)| - 1])
    ensures DropTrailing(t) != [] ==> DropTrailing(t)[0] == t[0]
  {
    TrailingSpacesSpec(t);
  }

  lemma StripTrimmed(s: string)
    ensures Trimmed(Strip(s))
  {
    var t := s[LeadingSpaces(s)..];
    LeadingSpacesSpec(s);
    DropTrailingSpec(t);
  }

  lemma StripSlice(s: string)
    ensures LeadingSpaces(s) + |Strip(s)| <= |s|
    ensures Strip(s) == s[LeadingSpaces(s)..LeadingSpaces(s) + |Strip(s)|]
  {
  }

  lemma StripSplits(s: string)
    ensures LeadingSpaces(s) + |Strip(s)| <= |s|
    ensures s == s[..LeadingSpaces(s)] + Strip(s) + s[LeadingSpaces(s) + |Strip(s)|..]
  {
    StripSlice(s);
    ThreeParts(s, LeadingSpaces(s), LeadingSpaces(s) + |Strip(s)|);
  }

  lemma StripPads(s: string)
    ensures LeadingSpaces(s) + |Strip(s)| <= |s|
    ensures AllSpace(s[..LeadingSpaces(s)]) && AllSpace(s[LeadingSpaces(s) + |Strip(s)|..])
  {
    var lo := LeadingSpaces(s);
    var t := s[lo..];
    var r := DropTrailing(t);
    assert t[|r|..] == s[lo + |r|..];
    LeadingSpacesSpec(s);
    DropTrailingSpec(t);
  }

  /** `s` is the result of `strip` padded on both sides with whitespace, and
      that result has no whitespace at either end. */
  lemma StripSpec(s: string)
    ensures Trimmed(Strip(s))
    ensures LeadingSpaces(s) + |Strip(s)| <= |s|
    ensures s == s[..LeadingSpaces(s)] + Strip(s) + s[LeadingSpaces(s) + |Strip(s)|..]
    ensures AllSpace(s[..LeadingSpaces(s)]) && AllSpace(s[LeadingSpaces(s) + |Strip(s)|..])
  {
    StripTrimmed(s);
    StripSplits(s);
    StripPads(s);
  }

  /** Stripping undoes any whitespace padding of a trimmed string, and nothing else. */
  lemma StripPadded(w1: string, t: string, w2: string)
    requires AllSpace(w1) && AllSpace(w2) && Trimmed(t)
    ensures Strip(w1 + t + w2) == t
  {
    var s := w1 + t + w2;
    if t == [] {
      assert s == (w1 + w2) + [];
      assert AllSpace(w1 + w2);
      LeadingSpacesPadded(w1 + w2, []);
    } else {
      assert s == w1 + (t + w2);
      LeadingSpacesPadded(w1, t + w2);
      assert s[|w1|..] == t + w2;
      TrailingSpacesPadded(t, w2);
      assert (t + w2)[..|t|] == t;
    }
  }

  /** The result of `strip` is empty exactly when the input is all whitespace. */
  lemma StripEmpty(s: string)
    ensures Strip(s) == [] <==> AllSpace(s)
  {
    StripSpec(s);
    var lo := LeadingSpaces(s);
    var r := Strip(s);
    if r != [] {
      assert s[lo] == r[0];
    } else {
      assert s == s[..lo] + s[lo..];
    }
  }

  lemma StripIdempotent(s: string)
    ensures Strip(Strip(s)) == Strip(s)
  {
    StripSpec(s);
    StripPadded([], Strip(s), []);
    assert [] + Strip(s) + [] == Strip(s);
  }

  lemma AllSpaceConcat(a: string, b: string)
    requires AllSpace(a) && AllSpace(b)
    ensures AllSpace(a + b)
  {
  }

  /** Whitespace added around a string does not change what `strip` gives. */
  lemma StripAbsorbs(w1: string, q: string, w2: string)
    requires AllSpace(w1) && AllSpace(w2)
    ensures Strip(w1 + q + w2) == Strip(q)
  {
    StripSpec(q);
    var lo := LeadingSpaces(q);
    var t := Strip(q);
    var a, b := q[..lo], q[lo + |t|..];
    Regroup(w1, a, t, b, w2);
    AllSpaceConcat(w1, a);
    AllSpaceConcat(b, w2);
    StripPadded(w1 + a, t, b + w2);
  }

  function LowerChar(c: char): char {
    if 'A' <= c <= 'Z' then (c as int + 32) as char else c
  }

  function UpperChar(c: char): char {
    if 'a' <= c <= 'z' then (c as int - 32) as char else c
  }

  /** Python's `s.lower()` on ASCII letters. */
  function Lower(s: string): string {
    seq(|s|, i requires 0 <= i < |s| => LowerChar(s[i]))
  }

  /** Python's `s.upper()` on ASCII letters. */
  function Upper(s: string): string {
    seq(|s|, i requires 0 <= i < |s| => UpperChar(s[i]))
  }

  lemma {:induction false} LowerConcat(a: string, b: string)
    ensures Lower(a + b) == Lower(a) + Lower(b)
  {
    assert forall i :: 0 <= i < |a + b| ==> Lower(a + b)[i] == (Lower(a) + Lower(b))[i];
  }

  lemma {:induction false} LowerKeepsSpace(w: string)
    requires AllSpace(w)
    ensures Lower(w) == w
  {
    assert forall i :: 0 <= i < |w| ==> Lower(w)[i] == w[i];
  }

  lemma LowerTrimmed(r: string)
    requires Trimmed(r)
    ensures Trimmed(Lower(r))
  {
  }

  /** Lower-casing ignores any earlier upper-casing. */
  lemma LowerUpper(s: string)
    ensures Lower(Upper(s)) == Lower(s)
  {
    assert forall i :: 0 <= i < |s| ==> Lower(Upper(s))[i] == LowerChar(UpperChar(s[i]));
  }

  /** Lower-casing leaves whitespace where it is, so it commutes with stripping. */
  lemma {:induction false} LowerStripCommute(s: string)
    ensures Strip(Lower(s)) == Lower(Strip(s))
  {
    StripSpec(s);
    var n := LeadingSpaces(s);
    var r := Strip(s);
    var w1, w2 := s[..n], s[n + |r|..];
    LowerConcat(w1 + r, w2);
    LowerConcat(w1, r);
    LowerKeepsSpace(w1);
    LowerKeepsSpace(w2);
    assert Lower(s) == w1 + Lower(r) + w2;
    LowerTrimmed(r);
    StripPadded(w1, Lower(r), w2);
  }

  /** Number of occurrences of `c` in `s`. */
  function Count(s: string, c: char): nat {
    if s == [] then 0 else (if s[0] == c then 1 else 0) + Count(s[1..], c)
  }

  lemma {:induction false} CountConcat(a: string, b: string, c: char)
    ensures Count(a + b, c) == Count(a, c) + Count(b, c)
  {
    if a != [] {
      assert (a + b)[1..] == a[1..] + b;
      CountConcat(a[1..], b, c);
    } else {
      assert a + b == b;
    }
  }

  lemma {:induction false} CountAbsent(s: string, c: char)
    ensures c !in s <==> Count(s, c) == 0
  {
    if s != [] {
      CountAbsent(s[1..], c);
      assert c in s <==> s[0] == c || c in s[1..] by {
        assert s == [s[0]] + s[1..];
      }
    }
  }

  /** Index of the first `c` in `s`, or `|s|` when there is none. */
  function IndexOf(s: string, c: char): (i: nat)
    ensures i <= |s|
  {
    if s == [] || s[0] == c then 0 else 1 + IndexOf(s[1..], c)
  }

  /** Nothing before the index is `c`, and the index holds `c` unless it is `|s|`. */
  lemma {:induction false} IndexOfSpec(s: string, c: char)
    ensures c !in s[..IndexOf(s, c)]
    ensures IndexOf(s, c) < |s| ==> s[IndexOf(s, c)] == c
  {
    if s != [] && s[0] != c {
      IndexOfSpec(s[1..], c);
      assert s[..IndexOf(s, c)] == [s[0]] + s[1..][..IndexOf(s[1..], c)];
    }
  }

  lemma {:induction false} IndexOfFirst(x: string, c: char, y: string)
    requires c !in x
    ensures IndexOf(x + [c] + y, c) == |x|
  {
    if x != [] {
      assert (x + [c] + y)[1..] == x[1..] + [c] + y;
      IndexOfFirst(x[1..], c, y);
    }
  }

  /** Python's `s.split(sep)`: the pieces between occurrences of `sep`, always at least one. */
  function Split(s: string, sep: char): (parts: seq<string>)
    ensures |parts| >= 1
    decreases |s|
  {
    var i := IndexOf(s, sep);
    if i == |s| then [s] else [s[..i]] + Split(s[i + 1..], sep)
  }

  /** Occurrences on both sides of one character, plus that character. */
  lemma CountCut(left: string, c: char, right: string, d: char)
    ensures Count(left + [c] + right, d) == Count(left, d) + (if c == d then 1 else 0) + Count(right, d)
  {
    CountConcat(left + [c], right, d);
    CountConcat(left, [c], d);
  }

  /** The first piece of a split, and the rest of the string after its separator. */
  lemma SplitFirst(s: string, sep: char)
    requires IndexOf(s, sep) < |s|
    ensures Split(s, sep) == [s[..IndexOf(s, sep)]] + Split(s[IndexOf(s, sep) + 1..], sep)
  {
  }

  lemma {:induction false} SplitCount(s: string, sep: char)
    ensures |Split(s, sep)| == Count(s, sep) + 1
    decreases |s|
  {
    var i := IndexOf(s, sep);
    if i == |s| {
      IndexOfSpec(s, sep);
      assert s[..i] == s;
      CountAbsent(s, sep);
    } else {
      var rest := s[i + 1..];
      SplitCount(rest, sep);
      SplitFirst(s, sep);
      CutAt(s, i);
      CountCut(s[..i], s[i], rest, sep);
      assert sep !in s[..i] && s[i] == sep by { IndexOfSpec(s, sep); }
      CountAbsent(s[..i], sep);
    }
  }

  lemma {:induction false} SplitPiecesFree(s: string, sep: char)
    ensures forall k :: 0 <= k < |Split(s, sep)| ==> sep !in Split(s, sep)[k]
    decreases |s|
  {
    var i := IndexOf(s, sep);
    IndexOfSpec(s, sep);
    if i == |s| {
      assert s[..i] == s;
    } else {
      var rest := s[i + 1..];
      SplitPiecesFree(rest, sep);
      SplitFirst(s, sep);
      var parts := Split(s, sep);
      forall k | 0 <= k < |parts| ensures sep !in parts[k] {
        if k > 0 {
          assert parts[k] == Split(rest, sep)[k - 1];
        }
      }
    }
  }

  /** A split has one more piece than the string has separators, and no piece
      holds a separator. */
  lemma SplitSpec(s: string, sep: char)
    ensures |Split(s, sep)| == Count(s, sep) + 1
    ensures forall k :: 0 <= k < |Split(s, sep)| ==> sep !in Split(s, sep)[k]
  {
    SplitCount(s, sep);
    SplitPiecesFree(s, sep);
  }

  /** Python's `sep.join(parts)` with a one-character separator. */
  function Join(parts: seq<string>, sep: char): string {
    if parts == [] then []
    else if |parts| == 1 then parts[0]
    else parts[0] + [sep] + Join(parts[1..], sep)
  }

  /** Joining the pieces of a split gives back the string. */
  lemma {:induction false} JoinSplit(s: string, sep: char)
    ensures Join(Split(s, sep), sep) == s
    decreases |s|
  {
    var i := IndexOf(s, sep);
    if i < |s| {
      var rest := s[i + 1..];
      JoinSplit(rest, sep);
      SplitFirst(s, sep);
      CutAt(s, i);
      assert s[i] == sep by { IndexOfSpec(s, sep); }
    } else {
      assert s[..i] == s;
    }
  }

  lemma SplitAtFirst(x: string, sep: char, y: string)
    requires sep !in x
    ensures Split(x + [sep] + y, sep) == [x] + Split(y, sep)
  {
    var s := x + [sep] + y;
    IndexOfFirst(x, sep, y);
    assert s[..|x|] == x;
    assert s[|x| + 1..] == y;
  }

  lemma {:induction false} IndexOfAbsent(s: string, c: char)
    requires c !in s
    ensures IndexOf(s, c) == |s|
  {
    if s != [] {
      assert s[0] in s;
      assert forall x :: x in s[1..] ==> x in s;
      IndexOfAbsent(s[1..], c);
    }
  }

  lemma {:induction false} IndexOfFound(s: string, c: char)
    requires c in s
    ensures IndexOf(s, c) < |s|
  {
    if s[0] != c {
      assert s == [s[0]] + s[1..];
      IndexOfFound(s[1..], c);
    }
  }

  /** A string without the separator splits into itself alone. */
  lemma SplitAbsent(s: string, sep: char)
    requires sep !in s
    ensures Split(s, sep) == [s]
  {
    IndexOfAbsent(s, sep);
  }

  /** Splitting a join of separator-free pieces gives back the pieces. */
  lemma {:induction false} SplitJoin(parts: seq<string>, sep: char)
    requires |parts| > 0
    requires forall k :: 0 <= k < |parts| ==> sep !in parts[k]
    ensures Split(Join(parts, sep), sep) == parts
  {
    if |parts| == 1 {
      SplitAbsent(parts[0], sep);
    } else {
      SplitAtFirst(parts[0], sep, Join(parts[1..], sep));
      SplitJoin(parts[1..], sep);
      assert parts == [parts[0]] + parts[1..];
    }
  }

  /** A join is empty exactly when there is nothing to join or one empty piece. */
  lemma JoinEmpty(parts: seq<string>, sep: char)
    ensures Join(parts, sep) == [] <==> parts == [] || parts == [[]]
  {
    if |parts| >= 2 {
      assert |Join(parts, sep)| >= 1;
    }
  }

  function DigitChar(d: nat): char
    requires d < 10
  {
    ('0' as int + d) as char
  }

  /** Python's `str(n)` for a natural number: its decimal digits, most significant first. */
  function NatToString(n: nat): (s: string)
    ensures |s| > 0
    ensures forall i :: 0 <= i < |s| ==> '0' <= s[i] <= '9'
  {
    if n < 10 then [DigitChar(n)] else NatToString(n / 10) + [DigitChar(n % 10)]
  }
}
