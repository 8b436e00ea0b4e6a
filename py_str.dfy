/** Python's string methods as the preprocessors use them — `str.replace`, `str.split`,
    `str.join`, `str.capitalize` — and `os.path.join` on POSIX, with the facts about them
    that the rest of the model needs. Strings are sequences of characters; case mapping is
    ASCII only. */
module PyStr {
  import opened Py

  /** `sub` occurs in `s` starting at index `i`. */
  predicate OccursAt(s: string, sub: string, i: nat) {
    i + |sub| <= |s| && s[i..i + |sub|] == sub
  }

  /** `sub` occurs in `s` (Python's `sub in s`): `sub` is a substring of `s`. */
  ghost predicate Contains(s: string, sub: string) {
    exists i: nat :: OccursAt(s, sub, i)
  }

  /** Number of occurrences of the character `c` in `s`. */
  function Count(c: char, s: string): (n: nat)
    ensures n <= |s|
  {
    if |s| == 0 then 0 else (if s[0] == c then 1 else 0) + Count(c, s[1..])
  }

  /** `s` with every `c` deleted. */
  function Without(s: string, c: char): (r: string)
    ensures |r| == |s| - Count(c, s)
    ensures c !in r
  {
    if |s| == 0 then [] else (if s[0] == c then [] else [s[0]]) + Without(s[1..], c)
  }

  /** `s.replace(pat, rep)`: left to right, every non-overlapping occurrence of `pat`. */
  function Replace(s: string, pat: string, rep: string): string
    requires pat != []
    decreases |s|
  {
    if |s| < |pat| then s
    else if s[..|pat|] == pat then rep + Replace(s[|pat|..], pat, rep)
    else [s[0]] + Replace(s[1..], pat, rep)
  }

  /** `s.split(sep)`: the pieces between the non-overlapping occurrences of `sep`, found
      left to right. There is always at least one piece. */
  function Split(s: string, sep: string): (r: seq<string>)
    requires sep != []
    ensures |r| >= 1
    decreases |s|
  {
    if |s| < |sep| then [s]
    else if s[..|sep|] == sep then [""] + Split(s[|sep|..], sep)
    else
      var rest := Split(s[1..], sep);
      [[s[0]] + rest[0]] + rest[1..]
  }

  /** `sep.join(parts)`. */
  function Join(parts: seq<string>, sep: string): string {
    if |parts| == 0 then ""
    else if |parts| == 1 then parts[0]
    else parts[0] + sep + Join(parts[1..], sep)
  }

  function Upper(c: char): (u: char)
    ensures 'a' <= c <= 'z' ==> 'A' <= u <= 'Z'
    ensures !('a' <= c <= 'z') ==> u == c
  {
    if 'a' <= c <= 'z' then (c as int - 32) as char else c
  }

  function Lower(c: char): (l: char)
    ensures 'A' <= c <= 'Z' ==> 'a' <= l <= 'z'
    ensures !('A' <= c <= 'Z') ==> l == c
  {
    if 'A' <= c <= 'Z' then (c as int + 32) as char else c
  }

  function LowerAll(s: string): (r: string)
    ensures |r| == |s|
    ensures forall i :: 0 <= i < |s| ==> r[i] == Lower(s[i])
  {
    if |s| == 0 then [] else [Lower(s[0])] + LowerAll(s[1..])
  }

  /** `w.capitalize()`: the first character in upper case, the rest in lower case. */
  function Capitalize(w: string): (r: string)
    ensures |r| == |w|
    ensures |w| > 0 ==> r[0] == Upper(w[0])
    ensures forall i :: 0 < i < |w| ==> r[i] == Lower(w[i])
  {
    if |w| == 0 then [] else [Upper(w[0])] + LowerAll(w[1..])
  }

  /** `os.path.join(a, b)` on POSIX for two components: `b` alone when it is absolute, and
      otherwise `a` then `b` with exactly one `/` between them, added only when `a` is
      non-empty and does not already end with one. */
  function PathJoin(a: string, b: string): (r: string)
    ensures |b| <= |r| && r[|r| - |b|..] == b
    ensures |b| > 0 && b[0] == '/' ==> r == b
    ensures !(|b| > 0 && b[0] == '/') ==> |a| <= |r| && r[..|a|] == a
    ensures !(|b| > 0 && b[0] == '/') && (|a| == 0 || a[|a| - 1] == '/') ==> |r| == |a| + |b|
    ensures !(|b| > 0 && b[0] == '/') && |a| > 0 && a[|a| - 1] != '/' ==>
      |r| == |a| + 1 + |b| && r[|a|] == '/'
  {
    if |b| > 0 && b[0] == '/' then b
    else if |a| == 0 || a[|a| - 1] == '/' then a + b
    else a + "/" + b
  }

  // ---------------------------------------------------------------------------------------
  // Split, join and replace.

  lemma {:induction false} JoinCons(x: string, rest: seq<string>, sep: string)
    requires |rest| > 0
    ensures Join([x] + rest, sep) == x + sep + Join(rest, sep)
  {
    assert ([x] + rest)[1..] == rest;
  }

  /** Prepending a character to the first piece prepends it to the joined text. */
  lemma {:induction false} JoinAddFirst(c: char, r: seq<string>, sep: string)
    requires |r| > 0
    ensures Join([[c] + r[0]] + r[1..], sep) == [c] + Join(r, sep)
  {
    if |r| > 1 {
      JoinCons([c] + r[0], r[1..], sep);
      JoinCons(r[0], r[1..], sep);
      assert r == [r[0]] + r[1..];
    }
  }

  /** A sequence is the concatenation of its two halves at `k`. A step stated once so that
      the larger proofs need not derive it. */
  lemma {:induction false} SplitsAt<T>(s: seq<T>, k: nat)
    requires k <= |s|
    ensures s == s[..k] + s[k..]
  {
  }

  /** Joining the pieces of a split with the same separator gives back the text. */
  lemma {:induction false} JoinSplit(s: string, sep: string)
    requires sep != []
    ensures Join(Split(s, sep), sep) == s
    decreases |s|
  {
    if |s| < |sep| {
    } else if s[..|sep|] == sep {
      JoinSplit(s[|sep|..], sep);
      JoinSplitSep(s, sep);
    } else {
      JoinSplit(s[1..], sep);
      JoinSplitChar(s, sep);
    }
  }

  /** The step of `JoinSplit` for a text that starts with the separator. */
  lemma {:induction false} JoinSplitSep(s: string, sep: string)
    requires sep != [] && |s| >= |sep| && s[..|sep|] == sep
    requires Join(Split(s[|sep|..], sep), sep) == s[|sep|..]
    ensures Join(Split(s, sep), sep) == s
  {
    var rest := s[|sep|..];
    var r := Split(rest, sep);
    assert Split(s, sep) == [""] + r;
    JoinCons("", r, sep);
    assert "" + sep + rest == s[..|sep|] + rest;
    SplitsAt(s, |sep|);
  }

  /** The step of `JoinSplit` for a text that does not start with the separator. */
  lemma {:induction false} JoinSplitChar(s: string, sep: string)
    requires sep != [] && |s| >= |sep| && s[..|sep|] != sep
    requires Join(Split(s[1..], sep), sep) == s[1..]
    ensures Join(Split(s, sep), sep) == s
  {
    var r := Split(s[1..], sep);
    assert Split(s, sep) == [[s[0]] + r[0]] + r[1..];
    JoinAddFirst(s[0], r, sep);
    SplitsAt(s, 1);
    assert s[..1] == [s[0]];
  }

  /** `s.replace(pat, rep)` is `rep.join(s.split(pat))`: the text between the occurrences of
      `pat` is kept as it is, and each occurrence becomes `rep`. */
  lemma {:induction false} ReplaceIsJoinSplit(s: string, pat: string, rep: string)
    requires pat != []
    ensures Replace(s, pat, rep) == Join(Split(s, pat), rep)
    decreases |s|
  {
    if |s| < |pat| {
    } else if s[..|pat|] == pat {
      ReplaceIsJoinSplit(s[|pat|..], pat, rep);
      ReplaceSep(s, pat, rep);
    } else {
      ReplaceIsJoinSplit(s[1..], pat, rep);
      ReplaceChar(s, pat, rep);
    }
  }

  /** The step of `ReplaceIsJoinSplit` for a text that starts with the pattern. */
  lemma {:induction false} ReplaceSep(s: string, pat: string, rep: string)
    requires pat != [] && |s| >= |pat| && s[..|pat|] == pat
    requires Replace(s[|pat|..], pat, rep) == Join(Split(s[|pat|..], pat), rep)
    ensures Replace(s, pat, rep) == Join(Split(s, pat), rep)
  {
    var r := Split(s[|pat|..], pat);
    assert Split(s, pat) == [""] + r;
    JoinCons("", r, rep);
    assert "" + rep == rep;
  }

  /** The step of `ReplaceIsJoinSplit` for a text that does not start with the pattern. */
  lemma {:induction false} ReplaceChar(s: string, pat: string, rep: string)
    requires pat != [] && |s| >= |pat| && s[..|pat|] != pat
    requires Replace(s[1..], pat, rep) == Join(Split(s[1..], pat), rep)
    ensures Replace(s, pat, rep) == Join(Split(s, pat), rep)
  {
    var r := Split(s[1..], pat);
    assert Split(s, pat) == [[s[0]] + r[0]] + r[1..];
    JoinAddFirst(s[0], r, rep);
  }

  /** The first piece of a split is a prefix of the text. */
  lemma {:induction false} SplitFirstIsPrefix(s: string, sep: string)
    requires sep != []
    ensures |Split(s, sep)[0]| <= |s| && s[..|Split(s, sep)[0]|] == Split(s, sep)[0]
    decreases |s|
  {
    if |s| >= |sep| && s[..|sep|] != sep {
      SplitFirstIsPrefix(s[1..], sep);
    }
  }

  lemma {:induction false} ContainsInSuffix(s: string, t: string, k: nat)
    requires k <= |s| && Contains(s[k..], t)
    ensures Contains(s, t)
  {
    var o: nat :| OccursAt(s[k..], t, o);
    assert s[o + k..o + k + |t|] == s[k..][o..o + |t|];
    assert OccursAt(s, t, o + k);
  }

  lemma {:induction false} ContainsPrefix(s: string, t: string)
    requires |t| <= |s| && s[..|t|] == t
    ensures Contains(s, t)
  {
    assert OccursAt(s, t, 0);
  }

  lemma {:induction false} ContainsTrans(c: string, b: string, a: string)
    requires Contains(c, b) && Contains(b, a)
    ensures Contains(c, a)
  {
    var o2: nat :| OccursAt(c, b, o2);
    var o1: nat :| OccursAt(b, a, o1);
    assert forall j :: 0 <= j < |a| ==> c[o2 + o1 + j] == b[o1 + j] == a[j];
    assert c[o2 + o1..o2 + o1 + |a|] == a;
    assert OccursAt(c, a, o2 + o1);
  }

  /** Every piece of a split occurs in the text. */
  lemma {:induction false} SplitPiecesOccur(s: string, sep: string)
    requires sep != []
    ensures forall x :: x in Split(s, sep) ==> Contains(s, x)
    decreases |s|
  {
    var r := Split(s, sep);
    if |s| < |sep| {
      ContainsPrefix(s, s);
    } else if s[..|sep|] == sep {
      SplitPiecesOccur(s[|sep|..], sep);
      forall x | x in r ensures Contains(s, x) {
        if x == "" {
          ContainsPrefix(s, x);
        } else {
          assert x in Split(s[|sep|..], sep);
          ContainsInSuffix(s, x, |sep|);
        }
      }
    } else {
      var rest := Split(s[1..], sep);
      SplitPiecesOccur(s[1..], sep);
      SplitFirstIsPrefix(s[1..], sep);
      forall x | x in r ensures Contains(s, x) {
        if x == [s[0]] + rest[0] {
          assert s[..|x|] == [s[0]] + s[1..][..|rest[0]|];
          ContainsPrefix(s, x);
        } else {
          assert x in rest;
          ContainsInSuffix(s, x, 1);
        }
      }
    }
  }

  /** No piece of a split contains the separator. */
  lemma {:induction false} SplitPiecesFree(s: string, sep: string)
    requires sep != []
    ensures forall x :: x in Split(s, sep) ==> !Contains(x, sep)
    decreases |s|
  {
    var r := Split(s, sep);
    if |s| < |sep| {
    } else if s[..|sep|] == sep {
      SplitPiecesFree(s[|sep|..], sep);
    } else {
      var rest := Split(s[1..], sep);
      SplitPiecesFree(s[1..], sep);
      SplitFirstIsPrefix(s[1..], sep);
      var x := [s[0]] + rest[0];
      assert x == s[..|x|];
      assert !Contains(rest[0], sep) by { assert rest[0] in rest; }
      forall i: nat ensures !OccursAt(x, sep, i) {
        if i == 0 {
          if |sep| <= |x| {
            assert s[..|sep|] == x[..|sep|];
          }
        } else if i + |sep| <= |x| {
          assert rest[0][i - 1..i - 1 + |sep|] == x[i..i + |sep|];
          assert !OccursAt(rest[0], sep, i - 1);
        }
      }
      assert forall y :: y in r ==> y == x || y in rest;
    }
  }

  /** A text without the separator splits into itself alone. */
  lemma {:induction false} SplitAbsent(s: string, sep: string)
    requires sep != [] && !Contains(s, sep)
    ensures Split(s, sep) == [s]
    decreases |s|
  {
    if |s| >= |sep| {
      if s[..|sep|] == sep {
        assert OccursAt(s, sep, 0);
        assert false;
      }
      if Contains(s[1..], sep) {
        ContainsInSuffix(s, sep, 1);
        assert false;
      }
      SplitAbsent(s[1..], sep);
      assert s == [s[0]] + s[1..];
    }
  }

  lemma {:induction false} ContainsChar(s: string, c: char)
    ensures Contains(s, [c]) <==> c in s
  {
    if c in s {
      var i :| 0 <= i < |s| && s[i] == c;
      assert OccursAt(s, [c], i);
    }
    if Contains(s, [c]) {
      var i: nat :| OccursAt(s, [c], i);
      assert s[i] == s[i..i + 1][0];
    }
  }

  /** A substring of a text free of `sep` is free of `sep` too. */
  lemma {:induction false} SubstringAvoids(b: string, a: string, sep: string)
    requires Contains(b, a) && !Contains(b, sep)
    ensures !Contains(a, sep)
  {
    if Contains(a, sep) {
      ContainsTrans(b, a, sep);
    }
  }

  // ---------------------------------------------------------------------------------------
  // Deleting a character, and counting it.

  lemma {:induction false} WithoutAppend(a: string, b: string, c: char)
    ensures Without(a + b, c) == Without(a, c) + Without(b, c)
  {
    if |a| > 0 {
      var h := if a[0] == c then [] else [a[0]];
      WithoutAppend(a[1..], b, c);
      TailAppend(a, b);
      assert Without(a + b, c) == h + Without(a[1..] + b, c);
      AppendAssoc(h, Without(a[1..], c), Without(b, c));
    } else {
      assert a + b == b;
    }
  }

  lemma {:induction false} CountAppend(c: char, a: string, b: string)
    ensures Count(c, a + b) == Count(c, a) + Count(c, b)
  {
    if |a| > 0 {
      CountAppend(c, a[1..], b);
      TailAppend(a, b);
    } else {
      assert a + b == b;
    }
  }

  /** Two occurrences of `c` at different positions make a count of at least two. */
  lemma {:induction false} CountTwo(c: char, s: string, i: nat, j: nat)
    requires i < j < |s| && s[i] == c && s[j] == c
    ensures Count(c, s) >= 2
  {
    if i > 0 {
      CountTwo(c, s[1..], i - 1, j - 1);
    } else {
      CountOne(c, s[1..], j - 1);
    }
  }

  lemma {:induction false} CountOne(c: char, s: string, j: nat)
    requires j < |s| && s[j] == c
    ensures Count(c, s) >= 1
  {
    if j > 0 {
      CountOne(c, s[1..], j - 1);
    }
  }

  /** Count of `c` in a substring is at most its count in the whole text. */
  lemma {:induction false} CountSubstring(c: char, s: string, t: string)
    requires Contains(s, t)
    ensures Count(c, t) <= Count(c, s)
  {
    var o: nat :| OccursAt(s, t, o);
    assert s == s[..o] + t + s[o + |t|..];
    CountAppend(c, s[..o] + t, s[o + |t|..]);
    CountAppend(c, s[..o], t);
  }

  function WithoutEach(parts: seq<string>, c: char): (r: seq<string>)
    ensures |r| == |parts|
    ensures forall i :: 0 <= i < |parts| ==> r[i] == Without(parts[i], c)
  {
    if |parts| == 0 then [] else [Without(parts[0], c)] + WithoutEach(parts[1..], c)
  }

  /** Deleting a character commutes with joining. */
  lemma {:induction false} WithoutJoin(parts: seq<string>, sep: string, c: char)
    ensures Without(Join(parts, sep), c) == Join(WithoutEach(parts, c), Without(sep, c))
  {
    if |parts| > 1 {
      WithoutJoin(parts[1..], sep, c);
      WithoutAppend(parts[0] + sep, Join(parts[1..], sep), c);
      WithoutAppend(parts[0], sep, c);
      assert WithoutEach(parts, c)[1..] == WithoutEach(parts[1..], c);
    }
  }

  // ---------------------------------------------------------------------------------------
  // The last piece of a split.

  lemma {:induction false} JoinLast(parts: seq<string>, sep: string)
    requires |parts| >= 2
    ensures Join(parts, sep) == Join(parts[..|parts| - 1], sep) + sep + parts[|parts| - 1]
  {
    var n := |parts|;
    if n > 2 {
      JoinLast(parts[1..], sep);
      assert parts[1..][..n - 2] == parts[..n - 1][1..];
    }
  }

  /** `s.split(sep)[-1]` is a suffix of `s`: all of `s` when it is the only piece, and
      otherwise preceded in `s` by `sep`. */
  lemma {:induction false} LastPieceIsSuffix(s: string, sep: string)
    requires sep != []
    ensures var parts := Split(s, sep); var l := parts[|parts| - 1];
      && |l| <= |s| && s[|s| - |l|..] == l
      && (|parts| == 1 ==> l == s)
      && (|parts| > 1 ==> |l| + |sep| <= |s| && s[|s| - |l| - |sep|..|s| - |l|] == sep)
  {
    var parts := Split(s, sep);
    JoinSplit(s, sep);
    if |parts| > 1 {
      JoinLast(parts, sep);
      var init := Join(parts[..|parts| - 1], sep);
      var l := parts[|parts| - 1];
      assert s == init + sep + l;
      assert s[|s| - |l|..] == l;
      assert s[|s| - |l| - |sep|..|s| - |l|] == sep;
    }
  }

  lemma {:induction false} CountZero(c: char, s: string)
    ensures Count(c, s) == 0 <==> c !in s
  {
    if |s| > 0 {
      CountZero(c, s[1..]);
      assert s == [s[0]] + s[1..];
    }
  }

  /** A replacement at least as long as the pattern never shortens the text; when the
      pattern occurs and the replacement is longer, the text grows. */
  lemma {:induction false} ReplaceGrows(s: string, pat: string, rep: string)
    requires pat != [] && |rep| >= |pat|
    ensures |Replace(s, pat, rep)| >= |s|
    ensures Contains(s, pat) && |rep| > |pat| ==> |Replace(s, pat, rep)| > |s|
    decreases |s|
  {
    if |s| >= |pat| {
      if s[..|pat|] == pat {
        ReplaceGrows(s[|pat|..], pat, rep);
      } else {
        ReplaceGrows(s[1..], pat, rep);
        if Contains(s, pat) {
          var i: nat :| OccursAt(s, pat, i);
          assert i != 0;
          assert OccursAt(s[1..], pat, i - 1) by {
            assert s[1..][i - 1..i - 1 + |pat|] == s[i..i + |pat|];
          }
        }
      }
    }
  }

  /** A prefix free of the pattern's first character is kept as it is by the replacement. */
  lemma {:induction false} ReplaceFreePrefix(p: string, t: string, pat: string, rep: string)
    requires pat != [] && pat[0] !in p
    ensures Replace(p + t, pat, rep) == p + Replace(t, pat, rep)
  {
    if |p| > 0 {
      var s := p + t;
      TailAppend(p, t);
      ReplaceFreePrefix(p[1..], t, pat, rep);
      if |s| >= |pat| {
        assert p[0] in p && s[..|pat|][0] == p[0];
        assert Replace(s, pat, rep) == [p[0]] + Replace(p[1..] + t, pat, rep);
      } else {
        assert Replace(t, pat, rep) == t;
      }
      ConsAppend(p, Replace(t, pat, rep));
    } else {
      assert p + t == t;
    }
  }
}
