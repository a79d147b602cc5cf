/**
 * The string operations of Python's standard library that the OCR-D helpers
 * rely on, as total functions on `seq<char>`: `str.split` with a one-character
 * separator, `str.rstrip` with a character set, `os.path.basename` and the
 * ASCII part of `str.upper`/`str.replace`.
 */
module TextOps {

  /** `s.split(sep)` for a single-character separator: never empty, and there
      is one more piece than there are separators in `s`. */
  function Split(s: string, sep: char): (r: seq<string>)
    ensures |r| == Count(s, sep) + 1
    ensures forall i :: 0 <= i < |r| ==> sep !in r[i]
  {
    if s == [] then [""]
    else
      var rest := Split(s[1..], sep);
      if s[0] == sep then [""] + rest
      else [[s[0]] + rest[0]] + rest[1..]
  }

  /** Number of occurrences of `c` in `s`. */
  function Count(s: string, c: char): nat
  {
    if s == [] then 0 else (if s[0] == c then 1 else 0) + Count(s[1..], c)
  }

  /** `sep.join(pieces)`: the inverse of `Split`. */
  function JoinWith(pieces: seq<string>, sep: char): string
  {
    if |pieces| == 0 then ""
    else if |pieces| == 1 then pieces[0]
    else pieces[0] + [sep] + JoinWith(pieces[1..], sep)
  }

  /** Joining the pieces of a split gives back the original string. */
  lemma {:induction false} JoinSplit(s: string, sep: char)
    ensures JoinWith(Split(s, sep), sep) == s
  {
    if s != [] {
      JoinSplit(s[1..], sep);
      var rest := Split(s[1..], sep);
      if s[0] != sep {
        if |rest| > 1 {
          assert rest == [rest[0]] + rest[1..];
          assert JoinWith(rest, sep) == rest[0] + [sep] + JoinWith(rest[1..], sep);
        }
      }
    }
  }

  /** Splitting a join of separator-free pieces gives back the pieces. */
  lemma {:induction false} SplitJoin(pieces: seq<string>, sep: char)
    requires |pieces| >= 1
    requires forall i :: 0 <= i < |pieces| ==> sep !in pieces[i]
    ensures Split(JoinWith(pieces, sep), sep) == pieces
  {
    if |pieces| == 1 {
      SplitFree(pieces[0], sep);
    } else {
      var tail := JoinWith(pieces[1..], sep);
      SplitJoin(pieces[1..], sep);
      SplitConcat(pieces[0], tail, sep);
    }
  }

  /** A string without the separator splits into itself alone. */
  lemma {:induction false} SplitFree(s: string, sep: char)
    requires sep !in s
    ensures Split(s, sep) == [s]
  {
    if s != [] {
      assert sep !in s[1..] && s[0] != sep;
      SplitFree(s[1..], sep);
      assert [s[0]] + s[1..] == s;
    }
  }

  /** Splitting `a + [sep] + b`, where `a` holds no separator. */
  lemma {:induction false} SplitConcat(a: string, b: string, sep: char)
    requires sep !in a
    ensures Split(a + [sep] + b, sep) == [a] + Split(b, sep)
  {
    if a != [] {
      assert (a + [sep] + b)[1..] == a[1..] + [sep] + b;
      assert sep !in a[1..] && a[0] != sep;
      SplitConcat(a[1..], b, sep);
      assert [a[0]] + a[1..] == a;
    } else {
      assert (a + [sep] + b)[1..] == b;
    }
  }

  /** Splitting a string that has one separator between two parts splits
      each part separately. */
  lemma {:induction false} SplitAround(a: string, b: string, sep: char)
    ensures Split(a + [sep] + b, sep) == Split(a, sep) + Split(b, sep)
  {
    if a == [] {
      assert (a + [sep] + b)[1..] == b;
    } else {
      assert (a + [sep] + b)[1..] == a[1..] + [sep] + b;
      SplitAround(a[1..], b, sep);
    }
  }

  /** `s.rstrip(chars)`: strips the longest trailing run of characters that
      occur in `chars`. The three clauses determine the result uniquely
      (see `RStripUnique`). */
  function RStrip(s: string, chars: string): (r: string)
    ensures r <= s
    ensures r == [] || r[|r| - 1] !in chars
    ensures forall i :: |r| <= i < |s| ==> s[i] in chars
  {
    if s != [] && s[|s| - 1] in chars then RStrip(s[..|s| - 1], chars) else s
  }

  /** Any prefix that ends outside `chars` and leaves only `chars` behind is
      the result of `RStrip`. */
  lemma RStripUnique(s: string, chars: string, p: string)
    requires p <= s
    requires p == [] || p[|p| - 1] !in chars
    requires forall i :: |p| <= i < |s| ==> s[i] in chars
    ensures RStrip(s, chars) == p
  {
  }

  /** `RStrip` removes every trailing character in the set, which is not the
      same as removing `chars` as a suffix. */
  lemma RStripOfSuffix(p: string, chars: string)
    requires p == [] || p[|p| - 1] !in chars
    ensures RStrip(p + chars, chars) == p
  {
    RStripUnique(p + chars, chars, p);
  }

  /** Characters of `chars` appended to a string are all stripped again. */
  lemma RStripRun(p: string, t: string, chars: string)
    requires forall i :: 0 <= i < |t| ==> t[i] in chars
    ensures RStrip(p + t, chars) == RStrip(p, chars)
  {
    var r := RStrip(p, chars);
    forall i | |r| <= i < |p + t| ensures (p + t)[i] in chars {
      if i >= |p| {
        assert (p + t)[i] == t[i - |p|];
      }
    }
    RStripUnique(p + t, chars, r);
  }

  /** `os.path.basename(s)`: the part after the last `/`. */
  function Basename(s: string): string
  {
    if s == [] || s[|s| - 1] == '/' then []
    else Basename(s[..|s| - 1]) + [s[|s| - 1]]
  }

  /** The basename is the longest suffix without a `/`: what precedes it is
      empty or ends in `/`. */
  lemma {:induction false} BasenameIsLastPart(s: string)
    ensures var r := Basename(s);
      && |r| <= |s| && r == s[|s| - |r|..]
      && '/' !in r
      && (|r| < |s| ==> s[|s| - |r| - 1] == '/')
  {
    if s != [] && s[|s| - 1] != '/' {
      var init := s[..|s| - 1];
      BasenameIsLastPart(init);
      var r := Basename(init);
      assert Basename(s) == r + [s[|s| - 1]];
      assert s == init + [s[|s| - 1]];
      assert s[|s| - |r| - 1..] == init[|init| - |r|..] + [s[|s| - 1]];
      if |r| + 1 < |s| {
        assert s[|s| - |r| - 2] == init[|init| - |r| - 1];
      }
    }
  }

  /** ASCII upper-casing of one character. */
  function UpperChar(c: char): char
  {
    if 'a' <= c <= 'z' then (c as int - 32) as char else c
  }

  predicate IsLowerAscii(c: char)
  {
    'a' <= c <= 'z'
  }

  /** `s.replace(from, to)` for single characters, then `.upper()`. */
  function ReplaceUpper(s: string, from: char, to: char): string
  {
    seq(|s|, i requires 0 <= i < |s| => UpperChar(if s[i] == from then to else s[i]))
  }
}
