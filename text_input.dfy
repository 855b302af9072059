/** Turning the text area into sentences:
    `[s.strip() for s in text.split("\n") if s.strip()]`, and the test
    `not text.strip()` that decides whether the input is rejected with a
    warning instead. */
module TextInput {
  import opened Seqs

  /** Python's `str.isspace` on one code point: the characters `str.strip()`
      removes when called without arguments. */
  predicate IsSpace(c: char)
  {
    var n := c as int;
    || 9 <= n <= 13
    || 28 <= n <= 32
    || n == 0x85 || n == 0xA0 || n == 0x1680
    || 0x2000 <= n <= 0x200A
    || n == 0x2028 || n == 0x2029 || n == 0x202F || n == 0x205F || n == 0x3000
  }

  predicate AllSpace(s: string)
  {
    forall i :: 0 <= i < |s| ==> IsSpace(s[i])
  }

  lemma AllSpaceAppend(a: string, b: string)
    ensures AllSpace(a + b) <==> AllSpace(a) && AllSpace(b)
  {
    if AllSpace(a) && AllSpace(b) {
      forall i | 0 <= i < |a + b| ensures IsSpace((a + b)[i]) {
        if i >= |a| { assert (a + b)[i] == b[i - |a|]; }
      }
    }
    if AllSpace(a + b) {
      forall i | 0 <= i < |a| ensures IsSpace(a[i]) {
        assert (a + b)[i] == a[i];
      }
      forall i | 0 <= i < |b| ensures IsSpace(b[i]) {
        assert (a + b)[|a| + i] == b[i];
      }
    }
  }

  /** `s.lstrip()`: the suffix of `s` left after its longest all-space
      prefix. */
  function TrimStart(s: string): (r: string)
    ensures |r| <= |s| && r == s[|s| - |r|..]
    ensures AllSpace(s[..|s| - |r|])
    ensures r == [] || !IsSpace(r[0])
  {
    if s != [] && IsSpace(s[0]) then
      var r := TrimStart(s[1..]);
      assert s[..|s| - |r|] == [s[0]] + s[1..][..|s[1..]| - |r|];
      r
    else s
  }

  /** `s.rstrip()`: the prefix of `s` left before its longest all-space
      suffix. */
  function TrimEnd(s: string): (r: string)
    ensures |r| <= |s| && r == s[..|r|]
    ensures AllSpace(s[|r|..])
    ensures r == [] || !IsSpace(r[|r| - 1])
  {
    if s != [] && IsSpace(s[|s| - 1]) then
      var r := TrimEnd(s[..|s| - 1]);
      assert s[|r|..] == s[..|s| - 1][|r|..] + [s[|s| - 1]];
      r
    else s
  }

  /** `r` is `s` with an all-space run cut from each end. */
  predicate TrimmedFrom(s: string, r: string)
  {
    exists i :: 0 <= i && i + |r| <= |s| && r == s[i..i + |r|] && AllSpace(s[..i]) && AllSpace(s[i + |r|..])
  }

  /** `s.strip()`: the middle of `s` left once all-space runs are cut from
      both ends. It is empty exactly when `s` is all whitespace; otherwise it
      starts and ends with a non-space character, so the runs cut are the
      longest ones. */
  function Strip(s: string): (r: string)
    ensures TrimmedFrom(s, r)
    ensures r == [] <==> AllSpace(s)
    ensures r == [] || (!IsSpace(r[0]) && !IsSpace(r[|r| - 1]))
  {
    StripEmptyIffAllSpace(s);
    StripIsMiddle(s);
    TrimEnd(TrimStart(s))
  }

  lemma StripIsMiddle(s: string)
    ensures TrimmedFrom(s, TrimEnd(TrimStart(s)))
  {
    var t := TrimStart(s);
    var r := TrimEnd(t);
    var i := |s| - |t|;
    assert t == s[i..];
    assert r == s[i..i + |r|];
    assert s[i + |r|..] == t[|r|..];
  }

  lemma StripEmptyIffAllSpace(s: string)
    ensures TrimEnd(TrimStart(s)) == [] <==> AllSpace(s)
  {
    var t := TrimStart(s);
    var lead := s[..|s| - |t|];
    assert s == lead + t;
    AllSpaceAppend(lead, t);
    if TrimEnd(t) == [] {
      assert t[0..] == t;
    }
  }

  /** `text.split("\n")`: the pieces between newline characters, empty
      pieces included; there is always at least one. */
  function SplitLines(text: string): (lines: seq<string>)
    ensures |lines| >= 1
    ensures forall k :: 0 <= k < |lines| ==> '\n' !in lines[k]
  {
    if text == [] then [[]]
    else
      var rest := SplitLines(text[1..]);
      if text[0] == '\n' then [[]] + rest
      else [[text[0]] + rest[0]] + rest[1..]
  }

  /** `"\n".join(lines)`, the inverse of `SplitLines`. */
  function JoinLines(lines: seq<string>): string
    requires |lines| >= 1
  {
    if |lines| == 1 then lines[0] else lines[0] + "\n" + JoinLines(lines[1..])
  }

  lemma {:induction false} JoinSplit(text: string)
    ensures JoinLines(SplitLines(text)) == text
  {
    if text != [] {
      var rest := SplitLines(text[1..]);
      JoinSplit(text[1..]);
      if text[0] == '\n' {
        assert ([[]] + rest)[1..] == rest;
      } else {
        var lines := [[text[0]] + rest[0]] + rest[1..];
        if |rest| > 1 {
          assert lines[1..] == rest[1..];
        }
      }
    }
  }

  /** A line without newline characters splits into itself. */
  lemma {:induction false} SplitOneLine(line: string)
    requires '\n' !in line
    ensures SplitLines(line) == [line]
  {
    if line != [] {
      SplitOneLine(line[1..]);
      assert [line[0]] + line[1..] == line;
    }
  }

  /** Splitting a newline-free first line off the front of a text. */
  lemma {:induction false} SplitFirstLine(line: string, text: string)
    requires '\n' !in line
    ensures SplitLines(line + "\n" + text) == [line] + SplitLines(text)
  {
    if line == [] {
      assert line + "\n" + text == "\n" + text;
      assert ("\n" + text)[1..] == text;
    } else {
      var whole := line + "\n" + text;
      assert whole[1..] == line[1..] + "\n" + text;
      SplitFirstLine(line[1..], text);
      assert [line[0]] + line[1..] == line;
    }
  }

  lemma {:induction false} SplitJoin(lines: seq<string>)
    requires |lines| >= 1
    requires forall k :: 0 <= k < |lines| ==> '\n' !in lines[k]
    ensures SplitLines(JoinLines(lines)) == lines
  {
    if |lines| == 1 {
      SplitOneLine(lines[0]);
    } else {
      SplitJoin(lines[1..]);
      SplitFirstLine(lines[0], JoinLines(lines[1..]));
      assert [lines[0]] + lines[1..] == lines;
    }
  }

  /** The joined text is all whitespace exactly when every line is, since the
      newline that joins them is whitespace itself. */
  lemma {:induction false} AllSpaceJoin(lines: seq<string>)
    requires |lines| >= 1
    ensures AllSpace(JoinLines(lines)) <==> forall k :: 0 <= k < |lines| ==> AllSpace(lines[k])
  {
    if |lines| > 1 {
      AllSpaceJoin(lines[1..]);
      AllSpaceAppend(lines[0] + "\n", JoinLines(lines[1..]));
      AllSpaceAppend(lines[0], "\n");
      assert IsSpace('\n');
      if forall k :: 1 <= k < |lines| ==> AllSpace(lines[k]) {
        assert forall k :: 0 <= k < |lines[1..]| ==> AllSpace(lines[1..][k]);
      }
      if forall k :: 0 <= k < |lines[1..]| ==> AllSpace(lines[1..][k]) {
        forall k | 1 <= k < |lines| ensures AllSpace(lines[k]) {
          assert lines[k] == lines[1..][k - 1];
        }
      }
    }
  }

  /** The stripped lines, in order, blank ones included as empty strings. */
  function StripAll(lines: seq<string>): seq<string>
  {
    seq(|lines|, k requires 0 <= k < |lines| => Strip(lines[k]))
  }

  /** The filter `if s` of a comprehension over strings: drops the empty
      ones and keeps every other one, as often as it occurs. */
  function DropEmpty(xs: seq<string>): (r: seq<string>)
    ensures multiset(r) == multiset(xs)[[] := 0]
    ensures forall k :: 0 <= k < |r| ==> r[k] != [] && r[k] in xs
    ensures forall x :: x in xs && x != [] ==> x in r
    ensures r == [] <==> forall k :: 0 <= k < |xs| ==> xs[k] == []
  {
    if xs == [] then []
    else
      var rest := DropEmpty(xs[1..]);
      assert xs == [xs[0]] + xs[1..];
      ClearEmptyCons(xs[0], multiset(xs[1..]));
      var r := if xs[0] != [] then [xs[0]] + rest else rest;
      NonEmptyMembers(xs, r);
      r
  }

  /** Clearing the empty string from a multiset with one more element. */
  lemma ClearEmptyCons(x: string, m: multiset<string>)
    ensures (multiset{x} + m)[[] := 0] == if x == [] then m[[] := 0] else multiset{x} + m[[] := 0]
  {
    var lhs := (multiset{x} + m)[[] := 0];
    var rhs := if x == [] then m[[] := 0] else multiset{x} + m[[] := 0];
    forall y ensures lhs[y] == rhs[y] {
    }
  }

  /** What a multiset equation with the empty strings cleared says about
      membership. */
  lemma NonEmptyMembers(xs: seq<string>, r: seq<string>)
    requires multiset(r) == multiset(xs)[[] := 0]
    ensures forall k :: 0 <= k < |r| ==> r[k] != [] && r[k] in xs
    ensures forall x :: x in xs && x != [] ==> x in r
    ensures r == [] <==> forall k :: 0 <= k < |xs| ==> xs[k] == []
  {
    forall k | 0 <= k < |r| ensures r[k] != [] && r[k] in xs {
      assert r[k] in multiset(r);
    }
    forall x | x in xs && x != [] ensures x in r {
      assert x in multiset(xs);
      assert x in multiset(r);
    }
    if r == [] {
      forall k | 0 <= k < |xs| ensures xs[k] == [] {
        assert xs[k] in multiset(xs);
        assert multiset(xs)[[] := 0][xs[k]] == 0;
      }
    } else {
      assert r[0] in multiset(r);
    }
  }

  /** What survives the filter keeps its order. */
  lemma {:induction false} DropEmptyKeepsOrder(xs: seq<string>)
    ensures IsSubsequence(DropEmpty(xs), xs)
  {
    if xs != [] {
      DropEmptyKeepsOrder(xs[1..]);
      if xs[0] != [] {
        assert DropEmpty(xs)[1..] == DropEmpty(xs[1..]);
      }
    }
  }

  /** `[s.strip() for s in text.split("\n") if s.strip()]`: every sentence is
      non-empty, with no whitespace at either end, and is a stripped line of
      the text. */
  function Sentences(text: string): (r: seq<string>)
    ensures forall k :: 0 <= k < |r| ==> r[k] != [] && !IsSpace(r[k][0]) && !IsSpace(r[k][|r[k]| - 1])
    ensures forall k :: 0 <= k < |r| ==> r[k] in StripAll(SplitLines(text))
  {
    DropEmpty(StripAll(SplitLines(text)))
  }

  /** A line that is not blank contributes its stripped text to the
      sentences. */
  lemma NonBlankLineKept(text: string, k: nat)
    requires k < |SplitLines(text)| && !AllSpace(SplitLines(text)[k])
    ensures Strip(SplitLines(text)[k]) in Sentences(text)
  {
    assert StripAll(SplitLines(text))[k] == Strip(SplitLines(text)[k]);
  }

  /** The sentences are the stripped lines in their input order, blank lines
      deleted and every other line kept, as often as it occurs. */
  lemma SentencesInOrder(text: string)
    ensures IsSubsequence(Sentences(text), StripAll(SplitLines(text)))
    ensures multiset(Sentences(text)) == multiset(StripAll(SplitLines(text)))[[] := 0]
    ensures forall k :: 0 <= k < |SplitLines(text)| && !AllSpace(SplitLines(text)[k]) ==>
              Strip(SplitLines(text)[k]) in Sentences(text)
  {
    DropEmptyKeepsOrder(StripAll(SplitLines(text)));
    forall k | 0 <= k < |SplitLines(text)| && !AllSpace(SplitLines(text)[k])
      ensures Strip(SplitLines(text)[k]) in Sentences(text)
    {
      NonBlankLineKept(text, k);
    }
  }

  /** The warning is shown (`not text.strip()`) exactly when there would be
      no sentence; so the analysing branch always has at least one. */
  lemma WarningIffNoSentences(text: string)
    ensures Strip(text) == [] <==> Sentences(text) == []
  {
    var lines := SplitLines(text);
    JoinSplit(text);
    AllSpaceJoin(lines);
    NothingLeftIffBlank(lines);
  }

  /** No stripped line survives the filter exactly when every line is
      blank. */
  lemma NothingLeftIffBlank(lines: seq<string>)
    ensures DropEmpty(StripAll(lines)) == [] <==> forall k :: 0 <= k < |lines| ==> AllSpace(lines[k])
  {
    var stripped := StripAll(lines);
    assert forall k :: 0 <= k < |lines| ==> (stripped[k] == [] <==> AllSpace(lines[k]));
  }
}
