/**
 * The word structure of a command line as tvsh's `command()` sees it:
 * runs of whitespace separate words, and a word is a maximal run of
 * non-whitespace characters.  Everything here is pure; the array-based
 * splitter in module Shell is proved against `Words`.
 */
module Lexer {

  /** `isspace` in the C locale: space, and '\t', '\n', '\v', '\f', '\r' (codes 9 to 13). */
  predicate IsSpace(c: char) {
    c == ' ' || '\t' <= c <= '\r'
  }

  predicate NoSpace(w: seq<char>) {
    forall i :: 0 <= i < |w| ==> !IsSpace(w[i])
  }

  predicate AllSpace(g: seq<char>) {
    forall i :: 0 <= i < |g| ==> IsSpace(g[i])
  }

  /** Length of the run of non-whitespace characters that starts `s`: the inner copy loop. */
  function WordLen(s: seq<char>): (n: nat)
    ensures n <= |s|
    ensures NoSpace(s[..n])
    ensures n < |s| ==> IsSpace(s[n])
  {
    if s == [] || IsSpace(s[0]) then 0
    else
      var m := WordLen(s[1..]);
      assert s[..1 + m] == [s[0]] + s[1..][..m];
      1 + m
  }

  /**
   * The words of `s`, in order: whitespace is skipped one character at a
   * time, and a non-whitespace character starts a word that runs to the
   * next whitespace character or to the end.
   */
  function Words(s: seq<char>): (ws: seq<seq<char>>)
    ensures forall k :: 0 <= k < |ws| ==> ws[k] != [] && NoSpace(ws[k])
    decreases |s|
  {
    if s == [] then []
    else if IsSpace(s[0]) then Words(s[1..])
    else [s[..WordLen(s)]] + Words(s[WordLen(s)..])
  }

  /**
   * Where the word starting at index p of `s` ends: the splitter's
   * pointer after its inner copy loop.
   */
  function WordEnd(s: seq<char>, p: nat): (e: nat)
    requires p <= |s|
    ensures p <= e <= |s|
    ensures forall k :: p <= k < e ==> !IsSpace(s[k])
    ensures e < |s| ==> IsSpace(s[e])
    decreases |s| - p
  {
    if p == |s| || IsSpace(s[p]) then p else WordEnd(s, p + 1)
  }

  /** `WordEnd` and `WordLen` measure the same run: one as an index, the other as a length. */
  lemma {:induction false} WordEndLen(s: seq<char>, p: nat)
    requires p <= |s|
    ensures WordEnd(s, p) == p + WordLen(s[p..])
    decreases |s| - p
  {
    if p < |s| && !IsSpace(s[p]) {
      WordEndLen(s, p + 1);
      assert s[p..][1..] == s[p + 1..];
    }
  }

  /** The words of `s` from index p on, stepping an index as the splitter steps its pointer. */
  function WordsFrom(s: seq<char>, p: nat): seq<seq<char>>
    requires p <= |s|
    decreases |s| - p
  {
    if p == |s| then []
    else if IsSpace(s[p]) then WordsFrom(s, p + 1)
    else [s[p..WordEnd(s, p)]] + WordsFrom(s, WordEnd(s, p))
  }

  /** `s` with every whitespace character removed. */
  function Strip(s: seq<char>): seq<char> {
    if s == [] then []
    else (if IsSpace(s[0]) then [] else [s[0]]) + Strip(s[1..])
  }

  /** The words of `ws` written one after the other. */
  function Concat(ws: seq<seq<char>>): seq<char> {
    if ws == [] then [] else ws[0] + Concat(ws[1..])
  }

  /** gaps[0] + ws[0] + gaps[1] + ws[1] + ... + ws[|ws|-1] + gaps[|ws|]. */
  function Layout(gaps: seq<seq<char>>, ws: seq<seq<char>>): seq<char>
    requires |gaps| == |ws| + 1
    decreases |ws|
  {
    if ws == [] then gaps[0] else gaps[0] + ws[0] + Layout(gaps[1..], ws[1..])
  }

  /**
   * `ws` and `gaps` describe a line cut at whitespace: every gap is
   * whitespace only, the gaps between two words are not empty (the gaps
   * before the first word and after the last may be), and every word is
   * a non-empty run of non-whitespace characters.
   */
  predicate Separated(gaps: seq<seq<char>>, ws: seq<seq<char>>) {
    && |gaps| == |ws| + 1
    && (forall k :: 0 <= k < |gaps| ==> AllSpace(gaps[k]))
    && (forall k :: 0 < k < |ws| ==> gaps[k] != [])
    && (forall k :: 0 <= k < |ws| ==> ws[k] != [] && NoSpace(ws[k]))
  }

  // ---------------------------------------------------------------------
  // Helper facts about Words

  lemma {:induction false} WordsSkip(g: seq<char>, t: seq<char>)
    requires AllSpace(g)
    ensures Words(g + t) == Words(t)
    decreases |g|
  {
    if g != [] {
      assert (g + t)[0] == g[0] && (g + t)[1..] == g[1..] + t;
      WordsSkip(g[1..], t);
    } else {
      assert g + t == t;
    }
  }

  lemma {:induction false} WordLenExact(w: seq<char>, t: seq<char>)
    requires NoSpace(w)
    requires t == [] || IsSpace(t[0])
    ensures WordLen(w + t) == |w|
    decreases |w|
  {
    if w != [] {
      assert (w + t)[0] == w[0] && (w + t)[1..] == w[1..] + t;
      WordLenExact(w[1..], t);
    } else {
      assert w + t == t;
    }
  }

  lemma WordsWord(w: seq<char>, t: seq<char>)
    requires w != [] && NoSpace(w)
    requires t == [] || IsSpace(t[0])
    ensures Words(w + t) == [w] + Words(t)
  {
    WordLenExact(w, t);
    assert (w + t)[..|w|] == w;
    assert (w + t)[|w|..] == t;
  }

  lemma {:induction false} StripAppend(a: seq<char>, b: seq<char>)
    ensures Strip(a + b) == Strip(a) + Strip(b)
    decreases |a|
  {
    if a != [] {
      assert (a + b)[0] == a[0] && (a + b)[1..] == a[1..] + b;
      StripAppend(a[1..], b);
    } else {
      assert a + b == b;
    }
  }

  lemma {:induction false} StripWord(w: seq<char>)
    requires NoSpace(w)
    ensures Strip(w) == w
    decreases |w|
  {
    if w != [] {
      StripWord(w[1..]);
    }
  }

  lemma {:induction false} LayoutPrefixGap(p: seq<char>, gaps: seq<seq<char>>, ws: seq<seq<char>>)
    requires |gaps| == |ws| + 1
    ensures Layout([p + gaps[0]] + gaps[1..], ws) == p + Layout(gaps, ws)
  {
    var gaps' := [p + gaps[0]] + gaps[1..];
    assert gaps'[1..] == gaps[1..];
  }

  /** One whitespace character at position p is skipped. */
  lemma WordsAtSpace(s: seq<char>, p: nat)
    requires p < |s| && IsSpace(s[p])
    ensures Words(s[p..]) == Words(s[p + 1..])
  {
    assert s[p..][1..] == s[p + 1..];
  }

  /** A non-whitespace character at position p starts the next word. */
  lemma WordsAtWord(s: seq<char>, p: nat)
    requires p < |s| && !IsSpace(s[p])
    ensures p + WordLen(s[p..]) <= |s|
    ensures Words(s[p..]) == [s[p..p + WordLen(s[p..])]] + Words(s[p + WordLen(s[p..])..])
  {
    var n := WordLen(s[p..]);
    assert s[p..][..n] == s[p..p + n];
    assert s[p..][n..] == s[p + n..];
  }

  /** The indexed walk finds the words of the suffix it starts on. */
  lemma {:induction false} WordsFromSuffix(s: seq<char>, p: nat)
    requires p <= |s|
    ensures WordsFrom(s, p) == Words(s[p..])
    decreases |s| - p
  {
    if p == |s| {
      assert s[p..] == [];
    } else if IsSpace(s[p]) {
      WordsAtSpace(s, p);
      WordsFromSuffix(s, p + 1);
    } else {
      var e := WordEnd(s, p);
      assert s[p..] == s[p..e] + s[e..];
      WordLenExact(s[p..e], s[e..]);
      WordsAtWord(s, p);
      WordsFromSuffix(s, e);
    }
  }

  // ---------------------------------------------------------------------
  // What the splitter promises

  /** Joining the words gives back the line with its whitespace removed. */
  lemma {:induction false} WordsConcat(s: seq<char>)
    ensures Concat(Words(s)) == Strip(s)
    decreases |s|
  {
    if s == [] {
    } else if IsSpace(s[0]) {
      WordsConcat(s[1..]);
    } else {
      var n := WordLen(s);
      var ws := Words(s);
      assert ws[0] == s[..n] && ws[1..] == Words(s[n..]);
      WordsConcat(s[n..]);
      StripWord(s[..n]);
      assert s == s[..n] + s[n..];
      StripAppend(s[..n], s[n..]);
    }
  }

  /** A line has no words exactly when it is empty or all whitespace. */
  lemma {:induction false} WordsEmptyIff(s: seq<char>)
    ensures Words(s) == [] <==> AllSpace(s)
    decreases |s|
  {
    if s != [] {
      if IsSpace(s[0]) {
        WordsEmptyIff(s[1..]);
        if AllSpace(s[1..]) {
          forall i | 0 <= i < |s| ensures IsSpace(s[i]) {
            if i > 0 { assert s[i] == s[1..][i - 1]; }
          }
        }
      }
    }
  }

  /** Whitespace at the end of a line, such as the newline `fgets` keeps, adds no word. */
  lemma {:induction false} TrailingSpaceIgnored(s: seq<char>, c: char)
    requires IsSpace(c)
    ensures Words(s + [c]) == Words(s)
    decreases |s|
  {
    if s == [] {
      assert Words([c]) == Words([c][1..]);
    } else if IsSpace(s[0]) {
      assert (s + [c])[1..] == s[1..] + [c];
      TrailingSpaceIgnored(s[1..], c);
    } else {
      var n := WordLen(s);
      assert s == s[..n] + s[n..];
      assert s + [c] == s[..n] + (s[n..] + [c]);
      WordsWord(s[..n], s[n..] + [c]);
      TrailingSpaceIgnored(s[n..], c);
      WordsWord(s[..n], s[n..]);
    }
  }

  /**
   * Every line is its words separated by whitespace gaps: each word is a
   * maximal non-whitespace run, preceded by the line start or whitespace
   * and followed by whitespace or the line end.
   */
  lemma {:induction false} WordsLayout(s: seq<char>) returns (gaps: seq<seq<char>>)
    ensures Separated(gaps, Words(s)) && Layout(gaps, Words(s)) == s
    decreases |s|
  {
    if s == [] {
      gaps := [[]];
    } else if IsSpace(s[0]) {
      var g := WordsLayout(s[1..]);
      gaps := [[s[0]] + g[0]] + g[1..];
      assert Words(s) == Words(s[1..]);
      LayoutPrefixGap([s[0]], g, Words(s[1..]));
      assert [s[0]] + s[1..] == s;
      assert Layout(gaps, Words(s)) == s;
      assert AllSpace(gaps[0]) by {
        forall i | 0 <= i < |gaps[0]| ensures IsSpace(gaps[0][i]) {
          if i > 0 { assert gaps[0][i] == g[0][i - 1]; }
        }
      }
    } else {
      var n := WordLen(s);
      var t := s[n..];
      var g := WordsLayout(t);
      var ws := Words(s);
      assert ws == [s[..n]] + Words(t);
      gaps := [[]] + g;
      assert gaps[1..] == g && ws[1..] == Words(t);
      assert Layout(gaps, ws) == [] + s[..n] + Layout(g, Words(t));
      assert s == s[..n] + t;
      assert Layout(gaps, ws) == s;
      if |ws| > 1 {
        // the word ended at whitespace, so the gap after it is not empty
        assert t != [] && IsSpace(t[0]);
      }
    }
  }

  /** Conversely, any such separation of a line is the one `Words` finds. */
  lemma {:induction false} WordsUnique(gaps: seq<seq<char>>, ws: seq<seq<char>>)
    requires Separated(gaps, ws)
    ensures Words(Layout(gaps, ws)) == ws
    decreases |ws|
  {
    if ws == [] {
      WordsSkip(gaps[0], []);
      assert gaps[0] + [] == gaps[0];
    } else {
      var rest := Layout(gaps[1..], ws[1..]);
      assert Separated(gaps[1..], ws[1..]) by {
        forall k | 0 < k < |ws[1..]| ensures gaps[1..][k] != [] {
          assert gaps[1..][k] == gaps[k + 1];
        }
      }
      WordsUnique(gaps[1..], ws[1..]);
      assert rest == [] || IsSpace(rest[0]) by {
        if |ws| > 1 {
          assert rest == gaps[1] + ws[1] + Layout(gaps[2..], ws[2..]) by {
            assert gaps[1..][0] == gaps[1] && gaps[1..][1..] == gaps[2..];
            assert ws[1..][0] == ws[1] && ws[1..][1..] == ws[2..];
          }
          assert rest[0] == gaps[1][0];
        } else {
          assert rest == gaps[1];
        }
      }
      assert Layout(gaps, ws) == gaps[0] + (ws[0] + rest);
      WordsSkip(gaps[0], ws[0] + rest);
      WordsWord(ws[0], rest);
    }
  }
}
