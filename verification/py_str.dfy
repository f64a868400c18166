/**
 * The few methods of Python's `str` that the application's string rules are
 * built from: `isspace`, `find` and `rfind` of one character, `find` and
 * `count` of a substring, `split`, `join` and `strip` (all without optional
 * arguments). Strings are sequences of Unicode code points, as in Python 3.
 */
module PyStr {

  /** `c.isspace()`: the characters CPython classifies as whitespace. The same
      set is what the regular-expression class `\s` matches in a `str` pattern. */
  predicate IsSpace(c: char) {
    var n := c as int;
    || (0x09 <= n <= 0x0D) || (0x1C <= n <= 0x20) || n == 0x85 || n == 0xA0
    || n == 0x1680 || (0x2000 <= n <= 0x200A) || n == 0x2028 || n == 0x2029
    || n == 0x202F || n == 0x205F || n == 0x3000
  }

  predicate AllSpace(s: string) {
    forall i :: 0 <= i < |s| ==> IsSpace(s[i])
  }

  // ---------------------------------------------------------------------------
  // find / rfind of one character

  /** `i` is the index of the first `c` in `s`. */
  predicate FirstAt(s: string, c: char, i: int) {
    0 <= i < |s| && s[i] == c && c !in s[..i]
  }

  /** `j` is the index of the last `c` in `s`. */
  predicate LastAt(s: string, c: char, j: int) {
    0 <= j < |s| && s[j] == c && c !in s[j + 1..]
  }

  /** `s.find(c)`: the first index of `c` in `s`, or -1 when there is none. */
  function Find(s: string, c: char): (r: int)
    ensures r == -1 <==> c !in s
    ensures r != -1 ==> FirstAt(s, c, r)
  {
    if s == [] then -1
    else if s[0] == c then 0
    else
      var k := Find(s[1..], c);
      if k == -1 then -1
      else
        assert s[..k + 1] == [s[0]] + s[1..][..k];
        k + 1
  }

  /** `s.rfind(c)`: the last index of `c` in `s`, or -1 when there is none. */
  function RFind(s: string, c: char): (r: int)
    ensures r == -1 <==> c !in s
    ensures r != -1 ==> LastAt(s, c, r)
  {
    if s == [] then -1
    else if s[|s| - 1] == c then |s| - 1
    else
      var k := RFind(s[..|s| - 1], c);
      assert s == s[..|s| - 1] + [s[|s| - 1]];
      k
  }

  /** `find` reports an index no later than any occurrence. */
  lemma FindIsFirst(s: string, c: char, i: int)
    requires 0 <= i < |s| && s[i] == c
    ensures 0 <= Find(s, c) <= i
  {
  }

  /** `rfind` reports an index no earlier than any occurrence. */
  lemma RFindIsLast(s: string, c: char, j: int)
    requires 0 <= j < |s| && s[j] == c
    ensures j <= RFind(s, c) < |s|
  {
    assert c in s;
  }

  // ---------------------------------------------------------------------------
  // substrings

  /** `sub` occurs in `s` starting at index `i`. */
  predicate OccursAt(s: string, sub: string, i: int) {
    0 <= i && i + |sub| <= |s| && s[i..i + |sub|] == sub
  }

  /** `sub in s`. */
  predicate Contains(s: string, sub: string) {
    exists i :: 0 <= i <= |s| - |sub| && OccursAt(s, sub, i)
  }

  /** A part cut out of a string that does not contain `c` does not hold `c` either. */
  lemma SliceWithout(s: string, c: char, i: int, k: string)
    requires !Contains(s, [c]) && 0 <= i && i + |k| <= |s| && k == s[i..i + |k|]
    ensures c !in k
  {
    forall m | 0 <= m < |k| ensures k[m] != c {
      assert s[i + m..i + m + 1] == [k[m]];
      assert !OccursAt(s, [c], i + m);
    }
  }

  lemma OccursShift(s: string, sub: string)
    requires s != []
    ensures forall i :: 1 <= i ==> (OccursAt(s, sub, i) <==> OccursAt(s[1..], sub, i - 1))
  {
    forall i | 1 <= i
      ensures OccursAt(s, sub, i) <==> OccursAt(s[1..], sub, i - 1)
    {
      if i + |sub| <= |s| {
        assert s[1..][i - 1..i - 1 + |sub|] == s[i..i + |sub|];
      }
    }
  }

  /** `s.find(sub)`: the index of the leftmost occurrence of `sub`, or -1. */
  function IndexOf(s: string, sub: string): (r: int)
    ensures r == -1 <==> !Contains(s, sub)
    ensures r != -1 ==> OccursAt(s, sub, r) && forall k :: 0 <= k < r ==> !OccursAt(s, sub, k)
    decreases |s|
  {
    if |s| < |sub| then -1
    else if s[..|sub|] == sub then
      assert OccursAt(s, sub, 0);
      0
    else
      OccursShift(s, sub);
      var k := IndexOf(s[1..], sub);
      if k == -1 then
        assert forall i :: !OccursAt(s, sub, i) by {
          forall i ensures !OccursAt(s, sub, i) {
            if i >= 1 { assert !OccursAt(s[1..], sub, i - 1); }
          }
        }
        -1
      else
        assert OccursAt(s, sub, k + 1);
        k + 1
  }

  /** `s.count(sub)` for a non-empty `sub`: the number of non-overlapping
      occurrences, scanning from the left. */
  function Count(s: string, sub: string): (r: nat)
    requires sub != []
    ensures r * |sub| <= |s|
    ensures r == 0 <==> !Contains(s, sub)
    decreases |s|
  {
    if |s| < |sub| then 0
    else if s[..|sub|] == sub then
      assert OccursAt(s, sub, 0);
      1 + Count(s[|sub|..], sub)
    else
      OccursShift(s, sub);
      assert Contains(s, sub) <==> Contains(s[1..], sub) by {
        if Contains(s[1..], sub) {
          var j :| 0 <= j <= |s| - 1 - |sub| && OccursAt(s[1..], sub, j);
          assert OccursAt(s, sub, j + 1);
        }
        if Contains(s, sub) {
          var i :| 0 <= i <= |s| - |sub| && OccursAt(s, sub, i);
          assert i != 0;
          assert OccursAt(s[1..], sub, i - 1);
        }
      }
      Count(s[1..], sub)
  }

  // ---------------------------------------------------------------------------
  // split and join

  /** `s.split(sep)` for a non-empty `sep`: the pieces between the leftmost
      non-overlapping occurrences of `sep`. */
  function Split(s: string, sep: string): (r: seq<string>)
    requires sep != []
    ensures |r| >= 1
    decreases |s|
  {
    var i := IndexOf(s, sep);
    if i == -1 then [s] else [s[..i]] + Split(s[i + |sep|..], sep)
  }

  /** `sep.join(pieces)`. */
  function Join(pieces: seq<string>, sep: string): string {
    if |pieces| == 0 then []
    else if |pieces| == 1 then pieces[0]
    else pieces[0] + sep + Join(pieces[1..], sep)
  }

  /** Joining the pieces of a split with the separator gives back the string. */
  lemma {:induction false} SplitJoin(s: string, sep: string)
    requires sep != []
    ensures Join(Split(s, sep), sep) == s
    decreases |s|
  {
    var i := IndexOf(s, sep);
    if i != -1 {
      var rest := s[i + |sep|..];
      SplitJoin(rest, sep);
      SplitStep(s, sep, i);
      JoinCons(s[..i], Split(rest, sep), sep);
      SplitAround(s, sep, i);
    }
  }

  /** One step of `split`: the piece before the leftmost separator, then the
      split of what follows it. */
  lemma SplitStep(s: string, sep: string, i: int)
    requires sep != [] && i == IndexOf(s, sep) && i != -1
    ensures Split(s, sep) == [s[..i]] + Split(s[i + |sep|..], sep)
  {
  }

  /** Joining a piece in front of a non-empty list of pieces. */
  lemma JoinCons(p: string, ps: seq<string>, sep: string)
    requires |ps| >= 1
    ensures Join([p] + ps, sep) == p + sep + Join(ps, sep)
  {
    assert ([p] + ps)[1..] == ps;
  }

  /** A string is what comes before an occurrence, the occurrence, and what follows. */
  lemma SplitAround(s: string, sep: string, i: int)
    requires OccursAt(s, sep, i)
    ensures s == s[..i] + sep + s[i + |sep|..]
  {
    assert s[i..i + |sep|] == sep;
  }

  /** Splitting at a one-character separator that `a` does not contain cuts
      `a` off as the first piece. */
  lemma SplitAtChar(a: string, c: char, b: string)
    requires c !in a
    ensures Split(a + [c] + b, [c]) == [a] + Split(b, [c])
  {
    var x := a + [c] + b;
    assert x[|a|..|a| + 1] == [c];
    assert OccursAt(x, [c], |a|);
    forall k | 0 <= k < |a| ensures !OccursAt(x, [c], k) {
      assert x[k] == a[k] && a[k] in a;
    }
    assert IndexOf(x, [c]) == |a|;
    assert x[..|a|] == a && x[|a| + 1..] == b;
  }

  /** A string without the one-character separator splits into itself. */
  lemma SplitNoChar(a: string, c: char)
    requires c !in a
    ensures Split(a, [c]) == [a]
  {
    forall k | 0 <= k < |a| ensures !OccursAt(a, [c], k) {
      assert a[k] in a;
    }
  }

  /** Every cut of a split is at the leftmost occurrence of the separator in
      what remains: after the first `k` pieces, the next separator found is
      the one that ends piece `k`. */
  lemma {:induction false} SplitLeftmost(s: string, sep: string)
    requires sep != []
    ensures var r := Split(s, sep);
      forall k :: 0 <= k < |r| - 1 ==> IndexOf(Join(r[k..], sep), sep) == |r[k]|
    decreases |s|
  {
    var i := IndexOf(s, sep);
    if i != -1 {
      var rest := s[i + |sep|..];
      var r := Split(s, sep);
      SplitStep(s, sep, i);
      SplitLeftmost(rest, sep);
      SplitJoin(s, sep);
      forall k | 0 <= k < |r| - 1
        ensures IndexOf(Join(r[k..], sep), sep) == |r[k]|
      {
        if k == 0 {
          assert r[0..] == r;
        } else {
          assert r[k..] == Split(rest, sep)[k - 1..];
        }
      }
    }
  }

  /** Three pieces joined by a one-character separator none of them
      contains split back into those three pieces. */
  lemma SplitThree(a: string, b: string, d: string, c: char)
    requires c !in a && c !in b && c !in d
    ensures Split(a + [c] + b + [c] + d, [c]) == [a, b, d]
  {
    var y := b + [c] + d;
    SplitNoChar(d, c);
    SplitAtChar(b, c, d);
    assert Split(y, [c]) == [b, d];
    assert a + [c] + b + [c] + d == a + [c] + y;
    SplitAtChar(a, c, y);
  }

  /** No piece of a split contains the separator. */
  lemma {:induction false} SplitPiecesFree(s: string, sep: string)
    requires sep != []
    ensures forall p :: p in Split(s, sep) ==> !Contains(p, sep)
    decreases |s|
  {
    var i := IndexOf(s, sep);
    if i != -1 {
      var rest := s[i + |sep|..];
      SplitPiecesFree(rest, sep);
      var head := s[..i];
      assert !Contains(head, sep) by {
        forall k | OccursAt(head, sep, k) ensures false {
          assert head[k..k + |sep|] == s[k..k + |sep|];
          assert OccursAt(s, sep, k);
        }
      }
      assert Split(s, sep) == [head] + Split(rest, sep);
    }
  }

  /** Dropping a prefix in which `sub` does not start anywhere keeps the count. */
  lemma {:induction false} CountSkip(s: string, sub: string, k: nat)
    requires sub != [] && k <= |s|
    requires forall j :: 0 <= j < k ==> !OccursAt(s, sub, j)
    ensures Count(s, sub) == Count(s[k..], sub)
    decreases k
  {
    if k > 0 {
      if |s| < |sub| {
        assert Count(s[k..], sub) == 0;
      } else {
        assert !OccursAt(s, sub, 0);
        assert Count(s, sub) == Count(s[1..], sub);
        OccursShift(s, sub);
        forall j | 0 <= j < k - 1 ensures !OccursAt(s[1..], sub, j) {
          assert !OccursAt(s, sub, j + 1);
        }
        CountSkip(s[1..], sub, k - 1);
        assert s[1..][k - 1..] == s[k..];
      }
    }
  }

  /** The number of pieces of a split is one more than the count of the separator. */
  lemma {:induction false} SplitLength(s: string, sep: string)
    requires sep != []
    ensures |Split(s, sep)| == Count(s, sep) + 1
    decreases |s|
  {
    var i := IndexOf(s, sep);
    if i == -1 {
      CountSkip(s, sep, |s|);
      assert s[|s|..] == [];
    } else {
      var rest := s[i + |sep|..];
      CountSkip(s, sep, i);
      var t := s[i..];
      assert t[..|sep|] == sep;
      assert t[|sep|..] == rest;
      SplitLength(rest, sep);
    }
  }

  /** The count of a one-character string is the number of times the character occurs. */
  lemma {:induction false} CountChar(s: string, c: char)
    ensures Count(s, [c]) == multiset(s)[c]
    decreases |s|
  {
    if s != [] {
      CountChar(s[1..], c);
      assert s == [s[0]] + s[1..];
      assert multiset(s) == multiset{s[0]} + multiset(s[1..]);
      assert s[..1] == [s[0]];
    }
  }

  // ---------------------------------------------------------------------------
  // strip

  /** `s.lstrip()`. */
  function LStrip(s: string): (r: string)
    ensures |r| <= |s|
  {
    if s != [] && IsSpace(s[0]) then LStrip(s[1..]) else s
  }

  /** What `lstrip` leaves is a suffix of its input, only whitespace was
      removed before it, and it does not start with whitespace. */
  lemma {:induction false} LStripSpec(s: string)
    ensures var r := LStrip(s);
      && r == s[|s| - |r|..] && AllSpace(s[..|s| - |r|])
      && (r == [] || !IsSpace(r[0]))
  {
    if s != [] && IsSpace(s[0]) {
      LStripSpec(s[1..]);
      var t := LStrip(s[1..]);
      assert s[..|s| - |t|] == [s[0]] + s[1..][..|s| - 1 - |t|];
    }
  }

  /** `s.rstrip()`. */
  function RStrip(s: string): (r: string)
    ensures |r| <= |s|
  {
    if s != [] && IsSpace(s[|s| - 1]) then RStrip(s[..|s| - 1]) else s
  }

  /** What `rstrip` leaves is a prefix of its input, only whitespace was
      removed after it, and it does not end with whitespace. */
  lemma {:induction false} RStripSpec(s: string)
    ensures var r := RStrip(s);
      && r == s[..|r|] && AllSpace(s[|r|..])
      && (r == [] || !IsSpace(r[|r| - 1]))
  {
    if s != [] && IsSpace(s[|s| - 1]) {
      RStripSpec(s[..|s| - 1]);
      var t := RStrip(s[..|s| - 1]);
      assert s[|t|..] == s[..|s| - 1][|t|..] + [s[|s| - 1]];
    }
  }

  /** `s.strip()`: whitespace removed from both ends. */
  function Strip(s: string): (r: string)
    ensures |r| <= |s|
  {
    RStrip(LStrip(s))
  }

  /** `r` has no whitespace at either end. */
  predicate NoEdgeSpace(r: string) {
    r == [] || (!IsSpace(r[0]) && !IsSpace(r[|r| - 1]))
  }

  /** `r` is the contiguous part of `s` left after removing only whitespace
      from its two ends. */
  predicate TrimmedOf(s: string, r: string) {
    exists i :: 0 <= i <= |s| - |r| && r == s[i..i + |r|] && AllSpace(s[..i]) && AllSpace(s[i + |r|..])
  }

  /** What `strip` returns: the trimmed part of its input, with no whitespace left at the ends. */
  lemma StripSpec(s: string)
    ensures NoEdgeSpace(Strip(s)) && TrimmedOf(s, Strip(s))
  {
    var l := LStrip(s);
    var r := RStrip(l);
    var i := |s| - |l|;
    LStripSpec(s);
    RStripSpec(l);
    TrimmedParts(s, l, r);
  }

  /** A prefix `r` of a suffix `l` of `s`, with only whitespace cut off on
      either side, is trimmed out of `s`; edges free of whitespace carry over. */
  lemma TrimmedParts(s: string, l: string, r: string)
    requires |l| <= |s| && l == s[|s| - |l|..] && AllSpace(s[..|s| - |l|]) && (l == [] || !IsSpace(l[0]))
    requires |r| <= |l| && r == l[..|r|] && AllSpace(l[|r|..]) && (r == [] || !IsSpace(r[|r| - 1]))
    ensures NoEdgeSpace(r) && TrimmedOf(s, r)
  {
    var i := |s| - |l|;
    assert r == s[i..i + |r|];
    assert s[i + |r|..] == l[|r|..];
    if r != [] {
      assert r[0] == l[0];
    }
  }

  /** `lstrip` stops at the first non-whitespace character. */
  lemma {:induction false} LStripAt(s: string, i: nat)
    requires i <= |s| && AllSpace(s[..i]) && (i == |s| || !IsSpace(s[i]))
    ensures LStrip(s) == s[i..]
    decreases i
  {
    if i > 0 {
      assert IsSpace(s[..i][0]);
      assert s[1..][..i - 1] == s[1..i];
      LStripAt(s[1..], i - 1);
    }
  }

  /** `rstrip` stops after the last non-whitespace character. */
  lemma {:induction false} RStripAt(s: string, j: nat)
    requires j <= |s| && AllSpace(s[j..]) && (j == 0 || !IsSpace(s[j - 1]))
    ensures RStrip(s) == s[..j]
    decreases |s| - j
  {
    if j < |s| {
      assert IsSpace(s[j..][|s| - 1 - j]);
      var t := s[..|s| - 1];
      assert t[j..] == s[j..|s| - 1];
      RStripAt(t, j);
    }
  }

  /** Two all-whitespace halves make an all-whitespace string. */
  lemma AllSpaceHalves(s: string, i: nat)
    requires i <= |s| && AllSpace(s[..i]) && AllSpace(s[i..])
    ensures AllSpace(s)
  {
    forall k | 0 <= k < |s| ensures IsSpace(s[k]) {
      if k < i { assert s[..i][k] == s[k]; } else { assert s[i..][k - i] == s[k]; }
    }
  }

  /** `strip` of a string made only of whitespace is empty. */
  lemma StripAllSpace(s: string)
    requires AllSpace(s)
    ensures Strip(s) == []
  {
    assert s[..|s|] == s;
    LStripAt(s, |s|);
  }

  /** `strip` of `r` with whitespace on both sides, when `r` starts and ends
      with non-whitespace, is `r`. */
  lemma StripPaddedNonEmpty(s: string, r: string, i: nat)
    requires r != [] && NoEdgeSpace(r) && i + |r| <= |s| && r == s[i..i + |r|]
    requires AllSpace(s[..i]) && AllSpace(s[i + |r|..])
    ensures Strip(s) == r
  {
    assert s[i] == r[0];
    LStripAt(s, i);
    var t := s[i..];
    assert t[|r|..] == s[i + |r|..];
    assert t[|r| - 1] == r[|r| - 1];
    RStripAt(t, |r|);
    assert t[..|r|] == r;
  }

  /** `strip` of a string that is `r` padded with whitespace on both sides is `r`. */
  lemma StripPadded(s: string, r: string, i: nat)
    requires NoEdgeSpace(r) && i + |r| <= |s| && r == s[i..i + |r|]
    requires AllSpace(s[..i]) && AllSpace(s[i + |r|..])
    ensures Strip(s) == r
  {
    if r == [] {
      AllSpaceHalves(s, i);
      StripAllSpace(s);
    } else {
      StripPaddedNonEmpty(s, r, i);
    }
  }

  /** A word without whitespace at its ends is left as it is by `strip`,
      also after one leading space. */
  lemma StripWord(w: string)
    requires NoEdgeSpace(w)
    ensures Strip(w) == w && Strip([' '] + w) == w
  {
    assert w[..0] == [] && w[0..0 + |w|] == w && w[|w|..] == [];
    StripPadded(w, w, 0);
    var s := [' '] + w;
    assert s[..1] == [' '] && s[1..1 + |w|] == w && s[1 + |w|..] == [];
    StripPadded(s, w, 1);
  }

  /** Whitespace at the ends of the input is the only thing `strip` removes:
      any result of that shape is the one `strip` gives. */
  lemma StripUnique(s: string, r: string)
    requires NoEdgeSpace(r) && TrimmedOf(s, r)
    ensures Strip(s) == r
  {
    var i :| 0 <= i <= |s| - |r| && r == s[i..i + |r|] && AllSpace(s[..i]) && AllSpace(s[i + |r|..]);
    StripPadded(s, r, i);
  }

  /** Stripping twice is stripping once. */
  lemma StripIdempotent(s: string)
    ensures Strip(Strip(s)) == Strip(s)
  {
    var q := Strip(s);
    StripSpec(s);
    assert TrimmedOf(q, q) by {
      assert q == q[0..0 + |q|] && AllSpace(q[..0]) && AllSpace(q[|q|..]);
    }
    StripUnique(q, q);
  }
}
