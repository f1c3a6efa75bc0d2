/**
  The image prompt's URL form. The simulator percent-encodes only the space
  character (the `%20` form of section 2.1 of RFC 3986); every other
  character, other whitespace included, is put into the URL as it is. The
  fallback prompt keeps the first five words, or all of them when there are
  fewer, and joins them with `%20`.
 */
module UrlEncoding {
  import opened WordSplit

  /** The percent-encoded form of the space character. */
  const EncodedSpace: string := "%20"

  /** Number of words the fallback prompt keeps. */
  const FallbackWords: nat := 5

  /** `s` contains `EncodedSpace` starting at index `i`. */
  predicate EncodedSpaceAt(s: string, i: int) {
    0 <= i && i + 3 <= |s| && s[i..i + 3] == EncodedSpace
  }

  /** `s` contains `EncodedSpace` somewhere. */
  ghost predicate HasEncodedSpace(s: string) {
    exists i :: EncodedSpaceAt(s, i)
  }

  /** Python's `s.replace(" ", "%20")`. */
  function Encode(s: string): (e: string)
    ensures ' ' !in e
    ensures |e| >= |s|
  {
    if s == [] then []
    else if s[0] == ' ' then EncodedSpace + Encode(s[1..])
    else [s[0]] + Encode(s[1..])
  }

  /** Reads `%20` back as a space, scanning left to right as a URL decoder
      restricted to that one escape would. */
  function Decode(t: string): (s: string)
    ensures |s| <= |t|
  {
    if t == [] then []
    else if |t| >= 3 && t[..3] == EncodedSpace then [' '] + Decode(t[3..])
    else [t[0]] + Decode(t[1..])
  }

  /** Encoding distributes over concatenation. */
  lemma {:induction false} EncodeAppend(a: string, b: string)
    ensures Encode(a + b) == Encode(a) + Encode(b)
    decreases |a|
  {
    if a == [] {
      assert a + b == b;
    } else {
      var c := a + b;
      assert c[0] == a[0];
      assert c[1..] == a[1..] + b;
      EncodeAppend(a[1..], b);
      if a[0] == ' ' {
        assert Encode(c) == EncodedSpace + Encode(c[1..]);
        assert Encode(a) == EncodedSpace + Encode(a[1..]);
      } else {
        assert Encode(c) == [a[0]] + Encode(c[1..]);
        assert Encode(a) == [a[0]] + Encode(a[1..]);
      }
    }
  }

  /** Decoding undoes encoding for every prompt that does not already
      contain the text `%20`. */
  lemma {:induction false} DecodeEncode(s: string)
    requires !HasEncodedSpace(s)
    ensures Decode(Encode(s)) == s
    decreases |s|
  {
    if s != [] {
      forall i
        ensures !EncodedSpaceAt(s[1..], i)
      {
        if EncodedSpaceAt(s[1..], i) {
          EncodedSpaceShift(s, i);
        }
      }
      DecodeEncode(s[1..]);
      var rest := Encode(s[1..]);
      if s[0] == ' ' {
        assert (EncodedSpace + rest)[..3] == EncodedSpace;
        assert (EncodedSpace + rest)[3..] == rest;
      } else {
        var e := [s[0]] + rest;
        if |e| >= 3 && e[..3] == EncodedSpace {
          EncodedPrefixIsOriginal(s);
        }
        assert e[1..] == rest;
      }
    }
  }

  lemma {:induction false} EncodedSpaceShift(s: string, i: int)
    requires |s| > 0 && EncodedSpaceAt(s[1..], i)
    ensures EncodedSpaceAt(s, i + 1)
  {
    assert s[i + 1..i + 4] == s[1..][i..i + 3];
  }

  /** When the prompt does not start with a space, an encoded form that
      starts with `%20` comes from a prompt that starts with `%20`. */
  lemma {:induction false} EncodedPrefixIsOriginal(s: string)
    requires s != [] && s[0] != ' '
    requires |Encode(s)| >= 3 && Encode(s)[..3] == EncodedSpace
    ensures EncodedSpaceAt(s, 0)
  {
    var e := Encode(s);
    var t := s[1..];
    assert e[0] == '%' && e[1] == '2' && e[2] == '0' by {
      assert e[..3][0] == e[0] && e[..3][1] == e[1] && e[..3][2] == e[2];
    }
    assert e == [s[0]] + Encode(t);
    EncodeHead(t);
    assert s[..3] == [s[0], t[0], t[1]];
  }

  /** An encoded form that starts with `20` comes from a prompt that starts
      with `20`. */
  lemma {:induction false} EncodeHead(s: string)
    requires |Encode(s)| >= 2 && Encode(s)[0] == '2' && Encode(s)[1] == '0'
    ensures |s| >= 2 && s[0] == '2' && s[1] == '0'
  {
    assert s[0] != ' ';
    assert Encode(s) == [s[0]] + Encode(s[1..]);
    assert Encode(s[1..])[0] == '0';
    assert s[1..] != [] && s[1] != ' ';
    assert Encode(s[1..]) == [s[1]] + Encode(s[2..]);
  }

  /** Encoding undoes decoding for every URL text without a raw space. */
  lemma {:induction false} EncodeDecode(t: string)
    requires ' ' !in t
    ensures Encode(Decode(t)) == t
    decreases |t|
  {
    if t != [] {
      if |t| >= 3 && t[..3] == EncodedSpace {
        assert ' ' !in t[3..];
        EncodeDecode(t[3..]);
        assert t == EncodedSpace + t[3..];
      } else {
        assert ' ' !in t[1..];
        EncodeDecode(t[1..]);
        assert t == [t[0]] + t[1..];
      }
    }
  }

  /** The encoding is not injective: a prompt that already contains `%20`
      and the prompt with a space in its place give the same URL text. */
  lemma EncodeNotInjective()
    ensures Encode("a b") == Encode("a%20b")
  {
    assert Encode("a%20b") == "a%20b";
    assert Encode("b") == "b";
    assert Encode(" b") == EncodedSpace + Encode("b");
    assert Encode("a b") == "a" + Encode(" b");
  }

  /** A prompt without a space character, even one holding other
      whitespace, is its own encoding. */
  lemma {:induction false} EncodeWithoutSpace(s: string)
    requires ' ' !in s
    ensures Encode(s) == s
    decreases |s|
  {
    if s != [] {
      assert ' ' !in s[1..] by {
        assert forall j :: 0 <= j < |s[1..]| ==> s[1..][j] == s[j + 1];
      }
      EncodeWithoutSpace(s[1..]);
      assert s == [s[0]] + s[1..];
    }
  }

  /** Python's `"%20".join(prompt.split()[:5])`. */
  function Fallback(prompt: string): (f: string)
    ensures NoSpace(f)
    ensures f == Encode(Join(Take(Split(prompt), FallbackWords)))
  {
    var kept := Take(Split(prompt), FallbackWords);
    JoinWithNoSpace(EncodedSpace, kept);
    EncodeJoin(kept);
    JoinWith(EncodedSpace, kept)
  }

  /** For whitespace-free words, encoding the space-joined text is the same
      as joining the words with `%20`. */
  lemma {:induction false} EncodeJoin(ws: seq<string>)
    requires WellFormed(ws)
    ensures Encode(Join(ws)) == JoinWith(EncodedSpace, ws)
  {
    if |ws| == 1 {
      NoSpaceHasNoBlank(ws[0]);
      EncodeWithoutSpace(ws[0]);
    } else if |ws| > 1 {
      EncodeAppend(ws[0] + " ", Join(ws[1..]));
      EncodeAppend(ws[0], " ");
      NoSpaceHasNoBlank(ws[0]);
      EncodeWithoutSpace(ws[0]);
      EncodeJoin(ws[1..]);
    }
  }

  /** Decoding the fallback prompt and splitting it gives back its (at most
      five) words, provided none of them contains the text `%20`. */
  lemma {:induction false} FallbackDecodes(prompt: string)
    requires forall i :: 0 <= i < |Take(Split(prompt), FallbackWords)| ==>
               !HasEncodedSpace(Take(Split(prompt), FallbackWords)[i])
    ensures Split(Decode(Fallback(prompt))) == Take(Split(prompt), FallbackWords)
  {
    var kept := Take(Split(prompt), FallbackWords);
    NoEncodedSpaceInJoin(kept);
    DecodeEncode(Join(kept));
    SplitJoin(kept);
  }

  lemma {:induction false} NoSpaceHasNoBlank(w: string)
    requires NoSpace(w)
    ensures ' ' !in w
  {
  }

  /** Joining with single spaces cannot create `%20` across a seam. */
  lemma {:induction false} NoEncodedSpaceInJoin(ws: seq<string>)
    requires WellFormed(ws)
    requires forall i :: 0 <= i < |ws| ==> !HasEncodedSpace(ws[i])
    ensures !HasEncodedSpace(Join(ws))
  {
    if |ws| > 1 {
      NoEncodedSpaceInJoin(ws[1..]);
      var a := ws[0];
      var b := Join(ws[1..]);
      assert Join(ws) == a + " " + b;
      forall i
        ensures !EncodedSpaceAt(a + " " + b, i)
      {
        if EncodedSpaceAt(a + " " + b, i) {
          EncodedSpaceAtSeam(a, b, i);
        }
      }
    }
  }

  /** An occurrence of `%20` in `a + " " + b` lies wholly inside `a` or
      wholly inside `b`. */
  lemma {:induction false} EncodedSpaceAtSeam(a: string, b: string, i: int)
    requires EncodedSpaceAt(a + " " + b, i)
    ensures EncodedSpaceAt(a, i) || EncodedSpaceAt(b, i - |a| - 1)
  {
    var j := a + " " + b;
    if i + 3 <= |a| {
      assert j[i..i + 3] == a[i..i + 3];
    } else if i > |a| {
      var k := i - |a| - 1;
      assert j[i..i + 3] == b[k..k + 3];
    } else {
      SeamSpace(a, b, i);
    }
  }

  /** Three characters of `a + " " + b` that cover the seam include its space. */
  lemma {:induction false} SeamSpace(a: string, b: string, i: int)
    requires 0 <= i <= |a| < i + 3 <= |a| + 1 + |b|
    ensures ' ' in (a + " " + b)[i..i + 3]
  {
    assert (a + " " + b)[i..i + 3][|a| - i] == ' ';
  }
}
