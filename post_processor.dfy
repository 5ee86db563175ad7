/**
 * The response post-processor `_clean_response` of the AI service: it strips
 * whitespace, drops an unfinished sentence after the last full stop, caps the
 * length at 300 characters and rejects anything shorter than 10.
 */
module PostProcessor {
  import opened Wrappers
  import opened Text

  /** Longest text the post-processor lets through. */
  const MaxLength := 300
  /** Length kept before the ellipsis when the text is too long. */
  const CutLength := 297
  const Ellipsis := "..."
  /** Shortest text the post-processor accepts. */
  const MinLength := 10

  /** The endings that mark the piece after the last `.` as a finished sentence. */
  const Terminators: seq<string> := ["!", "?", "."]

  /**
   * What splitting on `.` tells about the last piece: it is the text after
   * the last `.` (all of the text when there is none), and the other pieces
   * joined again, plus a `.`, give everything before it.
   */
  lemma LastSentence(s: string)
    ensures var sentences := Split(s, ".");
      var last := sentences[|sentences| - 1];
      && |last| <= |s| && s[|s| - |last|..] == last && '.' !in last
      && (|sentences| > 1 <==> '.' in s)
      && (|sentences| > 1 ==> Join(sentences[..|sentences| - 1], ".") + "." == s[..|s| - |last|])
  {
    var sentences := Split(s, ".");
    var last := sentences[|sentences| - 1];
    SplitPiecesFree(s, ".");
    SplitManyIffContains(s, ".");
    ContainsChar(s, '.');
    ContainsChar(last, '.');
    JoinSplit(s, ".");
    if |sentences| > 1 {
      SplitBeforeLast(s, ".");
    } else {
      assert Join(sentences, ".") == last;
    }
  }

  /** The terminators are the three one-character texts `!`, `?` and `.`. */
  lemma TerminatorChars(c: char)
    ensures forall i :: 0 <= i < |Terminators| ==> |Terminators[i]| == 1
    ensures (exists i :: 0 <= i < |Terminators| && Terminators[i][0] == c) <==> c in ".!?"
  {
    assert Terminators[0][0] == '!' && Terminators[1][0] == '?' && Terminators[2][0] == '.';
  }

  /** `x.endswith(('!', '?', '.'))` holds exactly when the last character of `x` is one of them. */
  lemma TerminatedIff(x: string)
    ensures EndsWithAny(x, Terminators) <==> x != [] && x[|x| - 1] in ".!?"
  {
    if x != [] {
      TerminatorChars(x[|x| - 1]);
    } else {
      TerminatorChars('.');
    }
    EndsWithAnyChar(x, Terminators);
  }

  /**
   * Splits on `.` and, when there are several pieces and the one after the
   * last `.` is non-empty and ends in none of the terminators, keeps the
   * pieces before it joined again, plus a closing `.`. The result is the text
   * up to and including its last `.`, and it differs from the input exactly
   * when the input has a `.` but ends in none of `.`, `!`, `?`.
   */
  function TrimIncompleteSentence(s: string): (r: string)
    ensures r <= s
    ensures r == s <==> ('.' !in s || s[|s| - 1] in ".!?")
    ensures r != s ==> r != [] && r[|r| - 1] == '.' && '.' !in s[|r|..]
  {
    var sentences := Split(s, ".");
    var last := sentences[|sentences| - 1];
    LastSentence(s);
    TerminatedIff(last);
    if |sentences| > 1 && last != [] && !EndsWithAny(last, Terminators) then
      assert s[|s| - 1] == last[|last| - 1];
      Join(sentences[..|sentences| - 1], ".") + "."
    else
      assert last != [] ==> s[|s| - 1] == last[|last| - 1];
      s
  }

  /**
   * `_clean_response`: `Some([])` for empty input, `None` when the processed
   * text is shorter than `MinLength`, otherwise the processed text, which is
   * at most `MaxLength` long, never starts with whitespace, and is its own
   * cleaned form.
   */
  function CleanResponse(response: string): (r: Option<string>)
    ensures response == [] <==> r == Some([])
    ensures r.Some? && r.value != [] ==> MinLength <= |r.value| <= MaxLength
    ensures r.Some? && r.value != [] ==> !IsSpace(r.value[0])
  {
    if response == [] then Some([])
    else
      var s := Strip(response);
      var t := TrimIncompleteSentence(s);
      var u := if |t| > MaxLength then t[..CutLength] + Ellipsis else t;
      if |u| < MinLength then None else Some(u)
  }

  /** The text that reaches the length checks: stripped, then trimmed to its last full sentence. */
  function Kept(response: string): (t: string)
    ensures t == [] || !IsSpace(t[0])
  {
    TrimIncompleteSentence(Strip(response))
  }

  /**
   * The three outcomes of the length checks for non-empty input: too short is
   * rejected, in range is returned as is, too long is cut to 297 characters
   * plus `...`, exactly 300 in all.
   */
  lemma CleanResponseLengthRules(response: string)
    requires response != []
    ensures |Kept(response)| < MinLength <==> CleanResponse(response).None?
    ensures MinLength <= |Kept(response)| <= MaxLength ==> CleanResponse(response) == Some(Kept(response))
    ensures |Kept(response)| > MaxLength ==>
      CleanResponse(response) == Some(Kept(response)[..CutLength] + Ellipsis)
      && |CleanResponse(response).value| == MaxLength
  {
  }

  /** Trimming an already trimmed text changes nothing. */
  lemma TrimIncompleteSentenceIdempotent(s: string)
    ensures TrimIncompleteSentence(TrimIncompleteSentence(s)) == TrimIncompleteSentence(s)
  {
    var r := TrimIncompleteSentence(s);
    if r != s {
      assert r[|r| - 1] in ".!?";
    }
  }

  /** A text in the length range, without outer whitespace and already trimmed, passes unchanged. */
  lemma CleanResponseKeeps(x: string)
    requires MinLength <= |x| <= MaxLength
    requires Unpadded(x)
    requires TrimIncompleteSentence(x) == x
    ensures CleanResponse(x) == Some(x)
  {
    StripUnpadded(x);
  }

  /** A text that ends in `.` is left alone by the sentence trim. */
  lemma TrimKeepsFullStop(x: string)
    requires x != [] && x[|x| - 1] == '.'
    ensures TrimIncompleteSentence(x) == x
  {
  }

  /** Trimming a text without outer whitespace gives a text without outer whitespace that trimming keeps. */
  lemma TrimmedIsUnpadded(s: string)
    requires Unpadded(s)
    ensures var t := TrimIncompleteSentence(s);
      Unpadded(t) && TrimIncompleteSentence(t) == t
  {
    var t := TrimIncompleteSentence(s);
    TrimIncompleteSentenceIdempotent(s);
    if t != s {
      assert t[0] == s[0] && t[|t| - 1] == '.';
    }
  }

  /** A text cut to 297 characters plus `...` has no outer whitespace and survives the trim. */
  lemma CutForm(k: string)
    requires |k| > MaxLength && !IsSpace(k[0])
    ensures var v := k[..CutLength] + Ellipsis;
      Unpadded(v) && TrimIncompleteSentence(v) == v
  {
    var v := k[..CutLength] + Ellipsis;
    assert v[0] == k[0] && v[|v| - 1] == '.';
    TrimKeepsFullStop(v);
  }

  /**
   * A cleaned text is in the length range, has no whitespace at either end and
   * is left alone by the sentence trim.
   */
  lemma CleanedForm(response: string)
    requires CleanResponse(response).Some? && response != []
    ensures var v := CleanResponse(response).value;
      && MinLength <= |v| <= MaxLength
      && Unpadded(v)
      && TrimIncompleteSentence(v) == v
  {
    var s := Strip(response);
    var k := TrimIncompleteSentence(s);
    if |k| > MaxLength {
      CutForm(k);
      assert CleanResponse(response) == Some(k[..CutLength] + Ellipsis);
    } else {
      TrimmedIsUnpadded(s);
      assert CleanResponse(response) == Some(k);
    }
  }

  /** Whatever the post-processor returns is a fixed point of it. */
  lemma CleanResponseFixedPoint(response: string)
    requires CleanResponse(response).Some?
    ensures CleanResponse(CleanResponse(response).value) == CleanResponse(response)
  {
    if response != [] {
      CleanedForm(response);
      CleanResponseKeeps(CleanResponse(response).value);
    }
  }

  /** With a single `.` followed by an unfinished rest, the trim keeps the text up to that `.`. */
  lemma TrimDropsRest(first: string, rest: string)
    requires '.' !in first
    requires rest != [] && '.' !in rest && rest[|rest| - 1] !in "!?"
    ensures TrimIncompleteSentence(first + "." + rest) == first + "."
  {
    var s := first + "." + rest;
    var r := TrimIncompleteSentence(s);
    assert s[|first|] == '.';
    assert s[|s| - 1] == rest[|rest| - 1];
    assert forall i :: 0 <= i < |first| ==> s[i] == first[i];
    assert forall i :: |first| < i < |s| ==> s[i] == rest[i - |first| - 1];
    assert s[|r| - 1] == '.';
    assert r == s[..|first| + 1];
  }

  /**
   * For example, "This is a complete sentence. This is incomplete", in
   * general form: a first sentence with no `.` in it, a full stop, and an
   * unfinished rest also without `.`; only the first sentence and its `.` are
   * kept.
   */
  lemma CleanResponseDropsUnfinishedSentence(first: string, rest: string)
    requires MinLength <= |first| + 1 <= MaxLength && '.' !in first && !IsSpace(first[0])
    requires rest != [] && '.' !in rest && rest[|rest| - 1] !in "!?" && !IsSpace(rest[|rest| - 1])
    ensures CleanResponse(first + "." + rest) == Some(first + ".")
  {
    var s := first + "." + rest;
    assert s[0] == first[0] && s[|s| - 1] == rest[|rest| - 1];
    assert Unpadded(s);
    StripUnpadded(s);
    TrimDropsRest(first, rest);
  }

  /** Any non-empty input shorter than the minimum is rejected. */
  lemma CleanResponseRejectsShort(response: string)
    requires 0 < |response| < MinLength
    ensures CleanResponse(response) == None
  {
    var s := Strip(response);
    var k :| PaddedBy(response, s, k);
    assert TrimIncompleteSentence(s) <= s;
    CleanResponseLengthRules(response);
  }
}
