/**
 * The few Python `str` operations the service relies on, written out so that
 * their edge cases are explicit: `strip()`, `endswith`, the `in` operator,
 * `split(sep)`, `sep.join(parts)`, `replace(old, "")` and `split(sep)[-1]`.
 */
module Text {

  /** CPython's `str.isspace()`: the code points that `strip()` removes. */
  predicate IsSpace(c: char) {
    var n := c as int;
    (9 <= n <= 13) || (28 <= n <= 32) || n == 0x85 || n == 0xA0 || n == 0x1680
    || (0x2000 <= n <= 0x200A) || n == 0x2028 || n == 0x2029 || n == 0x202F
    || n == 0x205F || n == 0x3000
  }

  /** Every character of `s` is whitespace. */
  predicate AllSpace(s: string) {
    forall i :: 0 <= i < |s| ==> IsSpace(s[i])
  }

  /** `s.lstrip()`: the suffix of `s` left after dropping leading whitespace. */
  function TrimStart(s: string): (r: string)
    ensures |r| <= |s| && r == s[|s| - |r|..]
    ensures AllSpace(s[..|s| - |r|])
    ensures r == [] || !IsSpace(r[0])
  {
    if s != [] && IsSpace(s[0]) then
      var r := TrimStart(s[1..]);
      assert s[..|s| - |r|] == [s[0]] + s[1..][..|s| - 1 - |r|];
      r
    else
      s
  }

  /** `s.rstrip()`: the prefix of `s` left after dropping trailing whitespace. */
  function TrimEnd(s: string): (r: string)
    ensures |r| <= |s| && r == s[..|r|]
    ensures AllSpace(s[|r|..])
    ensures r == [] || !IsSpace(r[|r| - 1])
  {
    if s != [] && IsSpace(s[|s| - 1]) then
      var r := TrimEnd(s[..|s| - 1]);
      assert s[|r|..] == s[..|s| - 1][|r|..] + [s[|s| - 1]];
      r
    else
      s
  }

  /** `r` sits at offset `k` of `s` and everything of `s` around it is whitespace. */
  predicate PaddedBy(s: string, r: string, k: int) {
    0 <= k && k + |r| <= |s| && r == s[k..k + |r|]
    && AllSpace(s[..k]) && AllSpace(s[k + |r|..])
  }

  /** Neither end of `s` is whitespace. */
  predicate Unpadded(s: string) {
    s == [] || (!IsSpace(s[0]) && !IsSpace(s[|s| - 1]))
  }

  /** `s.strip()`: the whitespace-free core of `s`. */
  function Strip(s: string): (r: string)
    ensures Unpadded(r)
    ensures exists k :: PaddedBy(s, r, k)
  {
    var t := TrimStart(s);
    var r := TrimEnd(t);
    assert r != [] ==> r[0] == t[0];
    assert PaddedBy(s, r, |s| - |t|) by {
      assert s[|s| - |t| + |r|..] == t[|r|..];
    }
    r
  }

  /** Text without whitespace at either end is left alone by `strip()`. */
  lemma StripUnpadded(s: string)
    requires Unpadded(s)
    ensures Strip(s) == s
  {
  }

  /** `strip()` is idempotent. */
  lemma StripIdempotent(s: string)
    ensures Strip(Strip(s)) == Strip(s)
  {
    StripUnpadded(Strip(s));
  }

  /** `s.endswith(p)` */
  predicate EndsWith(s: string, p: string) {
    |p| <= |s| && s[|s| - |p|..] == p
  }

  /** Ending with a one-character text is having that character last. */
  lemma EndsWithChar(s: string, c: char)
    ensures EndsWith(s, [c]) <==> s != [] && s[|s| - 1] == c
  {
    if s != [] {
      assert s[|s| - 1..] == [s[|s| - 1]];
    }
  }

  /**
   * `s.endswith(tuple(ps))`: true when `s` ends with one of `ps`. The empty
   * tuple matches nothing, and a tuple holding `""` matches everything.
   */
  predicate EndsWithAny(s: string, ps: seq<string>): (b: bool)
    ensures ps == [] ==> !b
    ensures "" in ps ==> b
  {
    |ps| > 0 && (EndsWith(s, ps[0]) || EndsWithAny(s, ps[1..]))
  }

  /** Against one-character suffixes only, `endswith` looks at the last character. */
  lemma {:induction false} EndsWithAnyChar(s: string, ps: seq<string>)
    requires forall i :: 0 <= i < |ps| ==> |ps[i]| == 1
    ensures EndsWithAny(s, ps) <==> s != [] && exists i :: 0 <= i < |ps| && ps[i][0] == s[|s| - 1]
  {
    if |ps| > 0 {
      EndsWithAnyChar(s, ps[1..]);
      EndsWithChar(s, ps[0][0]);
      assert ps[0] == [ps[0][0]];
      if s != [] && exists i :: 0 <= i < |ps| && ps[i][0] == s[|s| - 1] {
        var i :| 0 <= i < |ps| && ps[i][0] == s[|s| - 1];
        if i > 0 {
          assert ps[1..][i - 1][0] == s[|s| - 1];
        }
      }
    }
  }

  lemma {:induction false} EndsWithAnyIff(s: string, ps: seq<string>)
    ensures EndsWithAny(s, ps) <==> exists i :: 0 <= i < |ps| && EndsWith(s, ps[i])
  {
    if |ps| > 0 {
      EndsWithAnyIff(s, ps[1..]);
      if EndsWithAny(s, ps[1..]) {
        var i :| 0 <= i < |ps[1..]| && EndsWith(s, ps[1..][i]);
        assert EndsWith(s, ps[i + 1]);
      }
      if exists i :: 0 <= i < |ps| && EndsWith(s, ps[i]) {
        var i :| 0 <= i < |ps| && EndsWith(s, ps[i]);
        if i > 0 {
          assert EndsWith(s, ps[1..][i - 1]);
        }
      }
    }
  }

  /** `p` occurs in `s` starting at index `i`. */
  predicate OccursAt(s: string, p: string, i: int) {
    0 <= i && i + |p| <= |s| && s[i..i + |p|] == p
  }

  /** Python's `p in s` (true for every `s` when `p` is empty). */
  predicate Contains(s: string, p: string): (b: bool)
    ensures p == [] ==> b
    ensures b ==> |p| <= |s|
  {
    assert p == [] ==> OccursAt(s, p, 0);
    exists i | 0 <= i <= |s| - |p| :: OccursAt(s, p, i)
  }

  /** For a one-character pattern, `in` is plain membership. */
  lemma ContainsChar(s: string, c: char)
    ensures Contains(s, [c]) <==> c in s
  {
    if c in s {
      var i :| 0 <= i < |s| && s[i] == c;
      assert OccursAt(s, [c], i);
    }
    if Contains(s, [c]) {
      var i :| 0 <= i <= |s| - |[c]| && OccursAt(s, [c], i);
      assert s[i] == s[i..i + 1][0];
    }
  }

  /**
   * `s.split(sep)` for a non-empty separator (Python raises on an empty one):
   * scanning left to right, each leftmost non-overlapping occurrence of `sep`
   * ends a piece. There is always at least one piece.
   */
  function Split(s: string, sep: string): (r: seq<string>)
    requires sep != []
    ensures |r| >= 1
    decreases |s|
  {
    if |s| < |sep| then [s]
    else if s[..|sep|] == sep then [[]] + Split(s[|sep|..], sep)
    else
      var rest := Split(s[1..], sep);
      [[s[0]] + rest[0]] + rest[1..]
  }

  /** `sep.join(parts)` */
  function Join(parts: seq<string>, sep: string): (r: string)
    ensures parts == [] ==> r == []
  {
    if parts == [] then []
    else if |parts| == 1 then parts[0]
    else parts[0] + sep + Join(parts[1..], sep)
  }

  /** Joining a piece in front of a non-empty list puts one separator between them. */
  lemma JoinCons(x: string, parts: seq<string>, sep: string)
    requires parts != []
    ensures Join([x] + parts, sep) == x + sep + Join(parts, sep)
  {
    assert ([x] + parts)[1..] == parts;
  }

  /** Putting a character in front of the first piece puts it in front of the join. */
  lemma JoinPrepend(c: char, parts: seq<string>, sep: string)
    requires parts != []
    ensures Join([[c] + parts[0]] + parts[1..], sep) == [c] + Join(parts, sep)
  {
    if |parts| > 1 {
      JoinCons([c] + parts[0], parts[1..], sep);
      JoinCons(parts[0], parts[1..], sep);
      assert parts == [parts[0]] + parts[1..];
    }
  }

  /** `sep.join(split(sep))` gives back the original text. */
  lemma {:induction false} JoinSplit(s: string, sep: string)
    requires sep != []
    ensures Join(Split(s, sep), sep) == s
    decreases |s|
  {
    if |s| < |sep| {
    } else if s[..|sep|] == sep {
      var t := s[|sep|..];
      var ps := Split(t, sep);
      assert Split(s, sep) == [[]] + ps;
      JoinSplit(t, sep);
      JoinCons([], ps, sep);
      assert s == sep + t;
    } else {
      var t := s[1..];
      var ps := Split(t, sep);
      assert Split(s, sep) == [[s[0]] + ps[0]] + ps[1..];
      JoinSplit(t, sep);
      JoinPrepend(s[0], ps, sep);
      assert s == [s[0]] + t;
    }
  }

  /** The last piece of a join is preceded by the separator. */
  lemma {:induction false} JoinLast(parts: seq<string>, sep: string)
    requires |parts| >= 2
    ensures Join(parts, sep) == Join(parts[..|parts| - 1], sep) + sep + parts[|parts| - 1]
  {
    if |parts| > 2 {
      JoinLast(parts[1..], sep);
      assert parts[1..][..|parts| - 2] == parts[..|parts| - 1][1..];
    }
  }

  /** Everything before the last piece is the other pieces joined, plus one separator. */
  lemma SplitBeforeLast(s: string, sep: string)
    requires sep != [] && |Split(s, sep)| >= 2
    ensures var parts := Split(s, sep);
      var last := parts[|parts| - 1];
      |last| + |sep| <= |s| && s == Join(parts[..|parts| - 1], sep) + sep + last
      && s[..|s| - |last|] == Join(parts[..|parts| - 1], sep) + sep
  {
    JoinSplit(s, sep);
    JoinLast(Split(s, sep), sep);
  }

  /** The first piece is a prefix of the text. */
  lemma {:induction false} SplitHeadPrefix(s: string, sep: string)
    requires sep != []
    ensures Split(s, sep)[0] <= s
    decreases |s|
  {
    if |s| >= |sep| && s[..|sep|] != sep {
      SplitHeadPrefix(s[1..], sep);
      assert s == [s[0]] + s[1..];
    }
  }

  /** `p in s` holds when `p` starts `s` or occurs in `s[1..]`, and only then. */
  lemma ContainsStep(s: string, p: string)
    requires s != []
    ensures Contains(s, p) <==> OccursAt(s, p, 0) || Contains(s[1..], p)
  {
    if Contains(s[1..], p) {
      var j :| 0 <= j <= |s[1..]| - |p| && OccursAt(s[1..], p, j);
      assert s[j + 1..j + 1 + |p|] == s[1..][j..j + |p|];
      assert OccursAt(s, p, j + 1);
    }
    if Contains(s, p) && !OccursAt(s, p, 0) {
      var j :| 0 <= j <= |s| - |p| && OccursAt(s, p, j);
      assert j != 0;
      assert s[1..][j - 1..j - 1 + |p|] == s[j..j + |p|];
      assert OccursAt(s[1..], p, j - 1);
    }
  }

  /** No piece contains the separator. */
  lemma {:induction false} SplitPiecesFree(s: string, sep: string)
    requires sep != []
    ensures forall i :: 0 <= i < |Split(s, sep)| ==> !Contains(Split(s, sep)[i], sep)
    decreases |s|
  {
    var r := Split(s, sep);
    if |s| < |sep| {
    } else if s[..|sep|] == sep {
      SplitPiecesFree(s[|sep|..], sep);
      assert forall i :: 1 <= i < |r| ==> r[i] == Split(s[|sep|..], sep)[i - 1];
    } else {
      var rest := Split(s[1..], sep);
      SplitPiecesFree(s[1..], sep);
      SplitHeadPrefix(s[1..], sep);
      assert forall i :: 1 <= i < |r| ==> r[i] == rest[i];
      var head := [s[0]] + rest[0];
      assert head <= s by {
        assert s == [s[0]] + s[1..];
      }
      if |sep| <= |head| {
        assert head[..|sep|] == s[..|sep|];
      }
      ContainsStep(head, sep);
      assert head[1..] == rest[0];
    }
  }

  /** `split` yields more than one piece exactly when the separator occurs. */
  lemma {:induction false} SplitManyIffContains(s: string, sep: string)
    requires sep != []
    ensures |Split(s, sep)| > 1 <==> Contains(s, sep)
    decreases |s|
  {
    if |s| < |sep| {
    } else if s[..|sep|] == sep {
      assert OccursAt(s, sep, 0);
    } else {
      SplitManyIffContains(s[1..], sep);
      ContainsStep(s, sep);
    }
  }

  /**
   * `s.split(sep)[-1]`: the text after the last occurrence of `sep`, or all of
   * `s` when `sep` does not occur.
   */
  function AfterLast(s: string, sep: string): (r: string)
    requires sep != []
    ensures |r| <= |s| && r == s[|s| - |r|..]
    ensures !Contains(r, sep)
    ensures Contains(s, sep) ==> |r| + |sep| <= |s| && EndsWith(s[..|s| - |r|], sep)
    ensures !Contains(s, sep) ==> r == s
  {
    var parts := Split(s, sep);
    var r := parts[|parts| - 1];
    JoinSplit(s, sep);
    SplitPiecesFree(s, sep);
    SplitManyIffContains(s, sep);
    if |parts| >= 2 then
      JoinLast(parts, sep);
      r
    else
      r
  }

  /**
   * `s.replace(pat, "")`: delete the leftmost non-overlapping occurrences of
   * `pat`; an empty `pat` leaves `s` unchanged.
   */
  function RemoveAll(s: string, pat: string): (r: string)
    ensures pat == [] ==> r == s
    ensures |r| <= |s|
    decreases |s|
  {
    if pat == [] || |s| < |pat| then s
    else if s[..|pat|] == pat then RemoveAll(s[|pat|..], pat)
    else [s[0]] + RemoveAll(s[1..], pat)
  }

  /** `s.replace(pat, "") == "".join(s.split(pat))`: what is left is exactly the pieces between occurrences. */
  lemma {:induction false} RemoveAllIsJoinOfPieces(s: string, pat: string)
    requires pat != []
    ensures RemoveAll(s, pat) == Join(Split(s, pat), [])
    decreases |s|
  {
    if |s| < |pat| {
    } else if s[..|pat|] == pat {
      RemoveAllIsJoinOfPieces(s[|pat|..], pat);
    } else {
      var rest := Split(s[1..], pat);
      RemoveAllIsJoinOfPieces(s[1..], pat);
      if |rest| > 1 {
        assert Split(s, pat)[1..] == rest[1..];
      }
    }
  }

  /** Removing a pattern that does not occur changes nothing. */
  lemma RemoveAllAbsent(s: string, pat: string)
    requires !Contains(s, pat)
    ensures RemoveAll(s, pat) == s
  {
    if pat != [] {
      SplitManyIffContains(s, pat);
      JoinSplit(s, pat);
      RemoveAllIsJoinOfPieces(s, pat);
    }
  }

  /** A removal never lengthens the text, and shortens it by at least `|pat|` when `pat` occurs. */
  lemma {:induction false} RemoveAllShorter(s: string, pat: string)
    ensures |RemoveAll(s, pat)| <= |s|
    ensures Contains(s, pat) && pat != [] ==> |RemoveAll(s, pat)| + |pat| <= |s|
    decreases |s|
  {
    if pat == [] || |s| < |pat| {
    } else if s[..|pat|] == pat {
      RemoveAllShorter(s[|pat|..], pat);
    } else {
      RemoveAllShorter(s[1..], pat);
      ContainsStep(s, pat);
    }
  }
}
