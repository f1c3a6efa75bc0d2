/**
  Whitespace word splitting and rejoining with the semantics of Python's
  argument-less `str.split()` and `' '.join(...)`: a string is cut at runs of
  whitespace, leading and trailing whitespace produce no words, and a list of
  words is glued back together with one separator between neighbours.
 */
module WordSplit {

  /** The whitespace table Python's `str.split()` uses: the characters whose
      Unicode bidirectional class is WS, B or S, or whose category is Zs. */
  predicate IsSpace(c: char) {
    || ('\t' <= c <= '\r')
    || ('\U{1C}' <= c <= '\U{1F}')
    || c == ' '
    || c == '\U{85}'
    || c == '\U{A0}'
    || c == '\U{1680}'
    || ('\U{2000}' <= c <= '\U{200A}')
    || c == '\U{2028}'
    || c == '\U{2029}'
    || c == '\U{202F}'
    || c == '\U{205F}'
    || c == '\U{3000}'
  }

  /** No character of `w` is whitespace. */
  predicate NoSpace(w: string) {
    forall i :: 0 <= i < |w| ==> !IsSpace(w[i])
  }

  /** A word as `str.split()` produces it: non-empty and free of whitespace. */
  predicate IsWord(w: string) {
    |w| > 0 && NoSpace(w)
  }

  /** Every element of `ws` is a word. */
  predicate WellFormed(ws: seq<string>) {
    forall i :: 0 <= i < |ws| ==> IsWord(ws[i])
  }

  /** Length of the longest whitespace-free prefix of `s`. */
  function LeadingRun(s: string): (k: nat)
    ensures k <= |s|
    ensures NoSpace(s[..k])
    ensures k < |s| ==> IsSpace(s[k])
  {
    if s == [] || IsSpace(s[0]) then 0 else 1 + LeadingRun(s[1..])
  }

  /** Python's `s.split()` with no argument. */
  function Split(s: string): (ws: seq<string>)
    ensures WellFormed(ws)
    decreases |s|
  {
    if s == [] then []
    else if IsSpace(s[0]) then Split(s[1..])
    else
      var k := LeadingRun(s);
      [s[..k]] + Split(s[k..])
  }

  /** Python's `sep.join(ws)`. */
  function JoinWith(sep: string, ws: seq<string>): string
  {
    if |ws| == 0 then []
    else if |ws| == 1 then ws[0]
    else ws[0] + sep + JoinWith(sep, ws[1..])
  }

  /** Python's `' '.join(ws)`. */
  function Join(ws: seq<string>): string
  {
    JoinWith(" ", ws)
  }

  /** Python's slice `xs[:n]` for a non-negative `n`. */
  function Take<T>(xs: seq<T>, n: nat): (r: seq<T>)
    ensures |r| == if |xs| <= n then |xs| else n
    ensures r == xs[..|r|]
  {
    if |xs| <= n then xs else xs[..n]
  }

  /** All non-whitespace characters of `s`, in order. */
  function NonSpaceChars(s: string): string
  {
    if s == [] then []
    else if IsSpace(s[0]) then NonSpaceChars(s[1..])
    else [s[0]] + NonSpaceChars(s[1..])
  }

  /** Concatenation of a list of strings. */
  function Concat(ws: seq<string>): string
  {
    if ws == [] then [] else ws[0] + Concat(ws[1..])
  }

  lemma {:induction false} LeadingRunAppend(a: string, b: string)
    requires LeadingRun(a) < |a|
    ensures LeadingRun(a + b) == LeadingRun(a)
    decreases |a|
  {
    assert (a + b)[0] == a[0];
    if !IsSpace(a[0]) {
      assert (a + b)[1..] == a[1..] + b;
      LeadingRunAppend(a[1..], b);
    }
  }

  lemma {:induction false} LeadingRunOfWord(w: string, b: string)
    requires NoSpace(w)
    requires b == [] || IsSpace(b[0])
    ensures LeadingRun(w + b) == |w|
    decreases |w|
  {
    if w == [] {
      assert w + b == b;
    } else {
      assert (w + b)[0] == w[0];
      assert (w + b)[1..] == w[1..] + b;
      LeadingRunOfWord(w[1..], b);
    }
  }

  /** Whitespace at the seam keeps the words of the two halves apart. */
  lemma {:induction false} SplitAppend(a: string, b: string)
    requires a == [] || b == [] || IsSpace(a[|a| - 1]) || IsSpace(b[0])
    ensures Split(a + b) == Split(a) + Split(b)
    decreases |a|
  {
    if a == [] {
      assert a + b == b;
    } else if b == [] {
      assert a + b == a;
    } else if IsSpace(a[0]) {
      assert (a + b)[0] == a[0];
      assert (a + b)[1..] == a[1..] + b;
      if |a| > 1 {
        assert a[1..][|a[1..]| - 1] == a[|a| - 1];
      }
      SplitAppend(a[1..], b);
    } else {
      assert (a + b)[0] == a[0];
      var k := LeadingRun(a);
      if k < |a| {
        LeadingRunAppend(a, b);
        assert (a + b)[..k] == a[..k];
        assert (a + b)[k..] == a[k..] + b;
        assert a[k..][|a[k..]| - 1] == a[|a| - 1];
        SplitAppend(a[k..], b);
      } else {
        assert a[..k] == a;
        LeadingRunOfWord(a, b);
        assert (a + b)[..k] == a;
        assert (a + b)[k..] == b;
        assert a[k..] == [];
      }
    }
  }

  /** A single word splits into itself. */
  lemma {:induction false} SplitWord(w: string)
    requires IsWord(w)
    ensures Split(w) == [w]
  {
    LeadingRunOfWord(w, []);
    assert w + [] == w;
    assert w[..|w|] == w;
    assert w[|w|..] == [];
  }

  /** Splitting undoes joining with a single space. */
  lemma {:induction false} SplitJoin(ws: seq<string>)
    requires WellFormed(ws)
    ensures Split(Join(ws)) == ws
  {
    if |ws| == 0 {
    } else if |ws| == 1 {
      SplitWord(ws[0]);
    } else {
      var rest := Join(ws[1..]);
      assert Join(ws) == (ws[0] + " ") + rest;
      SplitHeadWord(ws[0], rest);
      SplitJoin(ws[1..]);
      assert [ws[0]] + ws[1..] == ws;
    }
  }

  /** Splitting, rejoining and splitting again yields the same words. */
  lemma {:induction false} SplitJoinSplit(s: string)
    ensures Split(Join(Split(s))) == Split(s)
  {
    SplitJoin(Split(s));
  }

  /** Gluing a whitespace-free tail onto a joined text extends its last word. */
  lemma {:induction false} SplitJoinGlued(ws: seq<string>, t: string)
    requires WellFormed(ws) && |ws| > 0
    requires NoSpace(t)
    ensures Split(Join(ws) + t) == ws[..|ws| - 1] + [ws[|ws| - 1] + t]
  {
    if |ws| == 1 {
      SplitWord(ws[0] + t);
    } else {
      var tail := ws[1..];
      JoinCons(ws);
      assert Join(ws) + t == (ws[0] + " ") + (Join(tail) + t);
      SplitHeadWord(ws[0], Join(tail) + t);
      SplitJoinGlued(tail, t);
      GluedShape(ws, t);
    }
  }

  /** Joining a list of two or more words: the first word, a space, and the
      rest joined. */
  lemma {:induction false} JoinCons(ws: seq<string>)
    requires |ws| > 1
    ensures Join(ws) == ws[0] + " " + Join(ws[1..])
  {
  }

  lemma {:induction false} GluedShape(ws: seq<string>, t: string)
    requires |ws| > 1
    requires Split(Join(ws) + t) == [ws[0]] + Split(Join(ws[1..]) + t)
    requires Split(Join(ws[1..]) + t) == ws[1..][..|ws| - 2] + [ws[|ws| - 1] + t]
    ensures Split(Join(ws) + t) == ws[..|ws| - 1] + [ws[|ws| - 1] + t]
  {
    var n := |ws|;
    assert ws[1..][..n - 2] == ws[1..n - 1];
    assert [ws[0]] + (ws[1..n - 1] + [ws[n - 1] + t]) == ws[..n - 1] + [ws[n - 1] + t];
  }

  /** A joined text with a glued tail, followed by text that starts with
      whitespace: the glued words, then the words of the rest. */
  lemma {:induction false} SplitGluedThenSpaced(ws: seq<string>, t: string, u: string)
    requires WellFormed(ws) && |ws| > 0
    requires NoSpace(t)
    requires u != [] && IsSpace(u[0])
    ensures Split(Join(ws) + (t + u)) == ws[..|ws| - 1] + [ws[|ws| - 1] + t] + Split(u)
  {
    assert Join(ws) + (t + u) == (Join(ws) + t) + u;
    SplitAppend(Join(ws) + t, u);
    SplitJoinGlued(ws, t);
  }

  /** A joined text with a glued tail, then a space and a second joined
      text: the glued words, then the second list of words. */
  lemma {:induction false} SplitGluedThenJoined(ws: seq<string>, t: string, vs: seq<string>)
    requires WellFormed(ws) && |ws| > 0
    requires NoSpace(t)
    requires WellFormed(vs)
    ensures Split(Join(ws) + (t + (" " + Join(vs)))) == ws[..|ws| - 1] + [ws[|ws| - 1] + t] + vs
  {
    var u := " " + Join(vs);
    SplitGluedThenSpaced(ws, t, u);
    assert u[1..] == Join(vs);
    SplitJoin(vs);
  }

  /** A word followed by a space contributes exactly itself. */
  lemma {:induction false} SplitHeadWord(w: string, rest: string)
    requires IsWord(w)
    ensures Split((w + " ") + rest) == [w] + Split(rest)
  {
    SplitAppend(w + " ", rest);
    SplitAppend(w, " ");
    SplitWord(w);
    assert Split(" ") == [];
  }

  lemma {:induction false} NonSpaceCharsAppend(a: string, b: string)
    ensures NonSpaceChars(a + b) == NonSpaceChars(a) + NonSpaceChars(b)
    decreases |a|
  {
    if a == [] {
      assert a + b == b;
    } else {
      assert (a + b)[0] == a[0];
      assert (a + b)[1..] == a[1..] + b;
      NonSpaceCharsAppend(a[1..], b);
    }
  }

  lemma {:induction false} NonSpaceCharsOfWord(w: string)
    requires NoSpace(w)
    ensures NonSpaceChars(w) == w
    decreases |w|
  {
    if w != [] {
      NonSpaceCharsOfWord(w[1..]);
    }
  }

  /** Splitting loses exactly the whitespace: the words, concatenated, are
      the non-whitespace characters of the input in their original order. */
  lemma {:induction false} SplitKeepsContent(s: string)
    ensures Concat(Split(s)) == NonSpaceChars(s)
    decreases |s|
  {
    if s == [] {
    } else if IsSpace(s[0]) {
      SplitKeepsContent(s[1..]);
    } else {
      var k := LeadingRun(s);
      assert s == s[..k] + s[k..];
      NonSpaceCharsAppend(s[..k], s[k..]);
      NonSpaceCharsOfWord(s[..k]);
      SplitKeepsContent(s[k..]);
      assert ([s[..k]] + Split(s[k..]))[1..] == Split(s[k..]);
    }
  }

  /** A string has no words exactly when it is all whitespace. */
  lemma {:induction false} SplitEmptyIffBlank(s: string)
    ensures Split(s) == [] <==> forall i :: 0 <= i < |s| ==> IsSpace(s[i])
    decreases |s|
  {
    if s != [] {
      if IsSpace(s[0]) {
        SplitEmptyIffBlank(s[1..]);
        if forall i :: 0 <= i < |s[1..]| ==> IsSpace(s[1..][i]) {
          forall i | 0 <= i < |s|
            ensures IsSpace(s[i])
          {
            if i > 0 {
              assert s[i] == s[1..][i - 1];
            }
          }
        }
      }
    }
  }

  /** Joining words with a whitespace-free separator leaves no whitespace. */
  lemma {:induction false} JoinWithNoSpace(sep: string, ws: seq<string>)
    requires NoSpace(sep) && WellFormed(ws)
    ensures NoSpace(JoinWith(sep, ws))
  {
    if |ws| > 1 {
      JoinWithNoSpace(sep, ws[1..]);
      var rest := JoinWith(sep, ws[1..]);
      assert JoinWith(sep, ws) == ws[0] + sep + rest;
      forall i | 0 <= i < |ws[0] + sep + rest|
        ensures !IsSpace((ws[0] + sep + rest)[i])
      {
        if i < |ws[0]| {
          assert IsWord(ws[0]);
        } else if i < |ws[0]| + |sep| {
          assert (ws[0] + sep + rest)[i] == sep[i - |ws[0]|];
        } else {
          assert (ws[0] + sep + rest)[i] == rest[i - |ws[0]| - |sep|];
        }
      }
    } else if |ws| == 1 {
      assert IsWord(ws[0]);
    }
  }
}
