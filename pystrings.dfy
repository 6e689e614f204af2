/** The two string-splitting operations of Python 3 that the boot gate relies on:
    `s.split()` (runs of non-whitespace) and `s.split(sep)` for a one-character
    separator (the pieces between occurrences of `sep`). */
module PyStrings {

  /** The characters for which Python 3's `str.isspace()` holds; `str.split()`
      with no argument separates tokens on exactly these. */
  predicate IsSpace(c: char)
  {
    || ('\t' <= c <= '\r')
    || ('\U{1C}' <= c <= '\U{1F}')
    || c == ' '
    || c == '\U{85}'
    || c == '\U{A0}'
    || c == '\U{1680}'
    || ('\U{2000}' <= c <= '\U{200A}')
    || c == '\U{2028}'
    || c == '\U{2029}'
    || c == '\U{202F}'
    || c == '\U{205F}'
    || c == '\U{3000}'
  }

  /** A token `str.split()` can produce: non-empty, with no whitespace in it. */
  predicate IsWord(w: string)
  {
    |w| > 0 && forall i :: 0 <= i < |w| ==> !IsSpace(w[i])
  }

  predicate AllSpace(s: string)
  {
    forall i :: 0 <= i < |s| ==> IsSpace(s[i])
  }

  /** Length of the leading run of non-whitespace characters of `s`. */
  function RunLength(s: string): (n: nat)
    ensures n <= |s|
    ensures forall i :: 0 <= i < n ==> !IsSpace(s[i])
    ensures n < |s| ==> IsSpace(s[n])
  {
    if |s| == 0 || IsSpace(s[0]) then 0 else 1 + RunLength(s[1..])
  }

  /** Python's `s.split()`: the maximal runs of non-whitespace, left to right. */
  function Words(s: string): (ws: seq<string>)
    ensures forall k :: 0 <= k < |ws| ==> IsWord(ws[k])
    decreases |s|
  {
    if |s| == 0 then []
    else if IsSpace(s[0]) then Words(s[1..])
    else
      var n := RunLength(s);
      [s[..n]] + Words(s[n..])
  }

  /** Python's `sep.join(ts)`. */
  function Join(ts: seq<string>, sep: string): string
  {
    if |ts| == 0 then ""
    else if |ts| == 1 then ts[0]
    else ts[0] + sep + Join(ts[1..], sep)
  }

  /** The characters of `s` that are not whitespace, in order. */
  function NonSpace(s: string): string
  {
    if |s| == 0 then ""
    else (if IsSpace(s[0]) then "" else [s[0]]) + NonSpace(s[1..])
  }

  /** All tokens glued together. */
  function Concat(ts: seq<string>): string
  {
    if |ts| == 0 then "" else ts[0] + Concat(ts[1..])
  }

  /** Number of occurrences of `c` in `s`. */
  function Count(s: string, c: char): nat
  {
    if |s| == 0 then 0 else (if s[0] == c then 1 else 0) + Count(s[1..], c)
  }

  /** Python's `s.split(sep)` for a one-character separator: always one piece more
      than there are separators, and no piece contains the separator. */
  function SplitOn(s: string, sep: char): (pieces: seq<string>)
    ensures |pieces| == Count(s, sep) + 1
    ensures sep in s <==> |pieces| >= 2
    ensures forall k :: 0 <= k < |pieces| ==> sep !in pieces[k]
    decreases |s|
  {
    if |s| == 0 then [""]
    else
      var rest := SplitOn(s[1..], sep);
      if s[0] == sep then [""] + rest
      else [[s[0]] + rest[0]] + rest[1..]
  }

  // ---------------------------------------------------------------------------
  // str.split()

  lemma {:induction false} RunLengthOfWord(w: string, u: string)
    requires IsWord(w)
    requires |u| == 0 || IsSpace(u[0])
    ensures RunLength(w + u) == |w|
    decreases |w|
  {
    assert (w + u)[0] == w[0];
    if |w| > 1 {
      assert (w + u)[1..] == w[1..] + u;
      RunLengthOfWord(w[1..], u);
    } else {
      assert (w + u)[1..] == u;
    }
  }

  /** Splitting a string of whitespace only gives no token, and only such a string does. */
  lemma {:induction false} WordsEmpty(s: string)
    ensures Words(s) == [] <==> AllSpace(s)
    decreases |s|
  {
    if |s| > 0 {
      WordsEmpty(s[1..]);
      if IsSpace(s[0]) {
        assert AllSpace(s) <==> AllSpace(s[1..]) by {
          if AllSpace(s[1..]) {
            forall i | 0 <= i < |s| ensures IsSpace(s[i]) {
              if i > 0 { assert s[i] == s[1..][i - 1]; }
            }
          }
        }
      }
    }
  }

  /** A lone token splits to itself. */
  lemma WordsOfWord(w: string)
    requires IsWord(w)
    ensures Words(w) == [w]
  {
    RunLengthOfWord(w, "");
    assert w + "" == w;
    assert w[|w|..] == "";
  }

  /** Leading whitespace is skipped: `(" " + s).split() == s.split()`. */
  lemma WordsSkipsSpace(c: char, s: string)
    requires IsSpace(c)
    ensures Words([c] + s) == Words(s)
  {
    assert ([c] + s)[1..] == s;
  }

  /** A whitespace character inside the leading run's remainder does not move
      the end of the run: the run ends before any appended text. */
  lemma {:induction false} RunLengthOfPrefix(a: string, u: string)
    requires RunLength(a) < |a|
    ensures RunLength(a + u) == RunLength(a)
    decreases |a|
  {
    assert (a + u)[0] == a[0];
    if !IsSpace(a[0]) {
      assert (a + u)[1..] == a[1..] + u;
      RunLengthOfPrefix(a[1..], u);
    }
  }

  /** When the first token of `a` ends inside `a`, appending text after `a`
      leaves that token alone. */
  lemma WordsOfRun(a: string, u: string)
    requires |a| > 0 && !IsSpace(a[0]) && RunLength(a) < |a|
    ensures Words(a + u) == [a[..RunLength(a)]] + Words(a[RunLength(a)..] + u)
  {
    var n := RunLength(a);
    RunLengthOfPrefix(a, u);
    assert (a + u)[0] == a[0];
    assert (a + u)[..n] == a[..n];
    assert (a + u)[n..] == a[n..] + u;
  }

  /** A whole token followed by whitespace is split off as it is. */
  lemma WordsOfWordThenSpace(a: string, c: char, b: string)
    requires IsWord(a) && IsSpace(c)
    ensures Words(a + [c] + b) == [a] + Words(b)
  {
    var s := a + [c] + b;
    RunLengthOfWord(a, [c] + b);
    assert s == a + ([c] + b);
    assert s[0] == a[0];
    assert s[..|a|] == a;
    assert s[|a|..] == [c] + b;
    WordsSkipsSpace(c, b);
  }

  /** Any one whitespace character separates tokens: splitting `a + [c] + b` at
      whitespace `c` gives the tokens of `a` followed by those of `b`. With
      `WordsOfWord` and `WordsEmpty` this fixes the split of every string. */
  lemma {:induction false} WordsAtSpace(a: string, c: char, b: string)
    requires IsSpace(c)
    ensures Words(a + [c] + b) == Words(a) + Words(b)
    decreases |a|
  {
    if |a| == 0 {
      assert a + [c] + b == [c] + b;
      WordsSkipsSpace(c, b);
    } else if IsSpace(a[0]) {
      assert a + [c] + b == [a[0]] + (a[1..] + [c] + b);
      WordsSkipsSpace(a[0], a[1..] + [c] + b);
      WordsAtSpace(a[1..], c, b);
    } else if RunLength(a) < |a| {
      var n := RunLength(a);
      WordsOfRun(a, [c] + b);
      assert a + [c] + b == a + ([c] + b);
      assert a[n..] + ([c] + b) == a[n..] + [c] + b;
      WordsAtSpace(a[n..], c, b);
    } else {
      WordsOfWordThenSpace(a, c, b);
      WordsOfWord(a);
    }
  }

  /** Round trip: tokens joined by single spaces split back into the same tokens. */
  lemma {:induction false} WordsOfJoin(ts: seq<string>)
    requires forall k :: 0 <= k < |ts| ==> IsWord(ts[k])
    ensures Words(Join(ts, " ")) == ts
    decreases |ts|
  {
    if |ts| == 1 {
      WordsOfWord(ts[0]);
    } else if |ts| > 1 {
      var w, rest := ts[0], Join(ts[1..], " ");
      var s := Join(ts, " ");
      assert s == w + (" " + rest);
      RunLengthOfWord(w, " " + rest);
      assert s[0] == w[0];
      assert s[..|w|] == w;
      assert s[|w|..] == [' '] + rest;
      WordsSkipsSpace(' ', rest);
      WordsOfJoin(ts[1..]);
      assert ts == [w] + ts[1..];
    }
  }

  /** Tokens joined by spaces form an empty string exactly when there are no tokens. */
  lemma JoinEmpty(ts: seq<string>)
    requires forall k :: 0 <= k < |ts| ==> IsWord(ts[k])
    ensures |Join(ts, " ")| == 0 <==> |ts| == 0
  {
    if |ts| > 0 {
      assert IsWord(ts[0]);
      if |ts| > 1 {
        assert |Join(ts, " ")| >= |ts[0]|;
      }
    }
  }

  lemma {:induction false} NonSpaceAppend(a: string, b: string)
    ensures NonSpace(a + b) == NonSpace(a) + NonSpace(b)
    decreases |a|
  {
    if |a| == 0 {
      assert a + b == b;
    } else {
      assert (a + b)[0] == a[0];
      assert (a + b)[1..] == a[1..] + b;
      NonSpaceAppend(a[1..], b);
    }
  }

  lemma {:induction false} NonSpaceOfWord(w: string)
    requires forall i :: 0 <= i < |w| ==> !IsSpace(w[i])
    ensures NonSpace(w) == w
    decreases |w|
  {
    if |w| > 0 {
      NonSpaceOfWord(w[1..]);
      assert w == [w[0]] + w[1..];
    }
  }

  /** `s.split()` loses nothing but whitespace: the tokens, glued back together,
      are the non-whitespace characters of `s` in their original order. */
  lemma {:induction false} WordsKeepNonSpace(s: string)
    ensures Concat(Words(s)) == NonSpace(s)
    decreases |s|
  {
    if |s| > 0 {
      if IsSpace(s[0]) {
        WordsKeepNonSpace(s[1..]);
      } else {
        var n := RunLength(s);
        var ws := Words(s);
        assert ws == [s[..n]] + Words(s[n..]);
        assert ws[1..] == Words(s[n..]);
        WordsKeepNonSpace(s[n..]);
        NonSpaceOfWord(s[..n]);
        assert s == s[..n] + s[n..];
        NonSpaceAppend(s[..n], s[n..]);
      }
    }
  }

  // ---------------------------------------------------------------------------
  // str.split(sep)

  lemma JoinConsHead(x: string, y: string, tail: seq<string>, sep: string)
    ensures Join([x + y] + tail, sep) == x + Join([y] + tail, sep)
  {
    if |tail| > 0 {
      assert ([x + y] + tail)[1..] == tail;
      assert ([y] + tail)[1..] == tail;
    }
  }

  /** Round trip: joining the pieces with the separator gives back the string. */
  lemma {:induction false} JoinSplitOn(s: string, sep: char)
    ensures Join(SplitOn(s, sep), [sep]) == s
    decreases |s|
  {
    if |s| > 0 {
      var rest := SplitOn(s[1..], sep);
      JoinSplitOn(s[1..], sep);
      if s[0] == sep {
        assert ([""] + rest)[1..] == rest;
        assert s == [sep] + s[1..];
      } else {
        assert rest == [rest[0]] + rest[1..];
        JoinConsHead([s[0]], rest[0], rest[1..], [sep]);
        assert s == [s[0]] + s[1..];
      }
    }
  }

  /** A string without the separator is a single piece. */
  lemma {:induction false} SplitOnNoSep(a: string, sep: char)
    requires sep !in a
    ensures SplitOn(a, sep) == [a]
    decreases |a|
  {
    if |a| > 0 {
      SplitOnNoSep(a[1..], sep);
      assert a == [a[0]] + a[1..];
    }
  }

  /** The first piece is everything before the first separator; the remaining
      pieces are those of the text after it. */
  lemma {:induction false} SplitOnFirst(a: string, sep: char, u: string)
    requires sep !in a
    ensures SplitOn(a + [sep] + u, sep) == [a] + SplitOn(u, sep)
    decreases |a|
  {
    var s := a + [sep] + u;
    if |a| == 0 {
      assert s == [sep] + u;
      assert s[1..] == u;
    } else {
      assert s[0] == a[0];
      assert s[1..] == a[1..] + [sep] + u;
      SplitOnFirst(a[1..], sep, u);
      assert a == [a[0]] + a[1..];
    }
  }
}
