/** The string operations the heading scan relies on: Python's `in` on
    strings (substring search) and `str.split()` with no argument. */
module Text {

  /** The characters Python's `str.isspace()` accepts, and so the characters
      that `str.split()` with no argument splits on: the ASCII controls
      TAB through CR and FS through US, SPACE, NEL, NO-BREAK SPACE and the
      Unicode space separators and line/paragraph separators. */
  predicate IsSpace(c: char) {
    ('\t' <= c <= '\r')
    || ('\U{1C}' <= c <= '\U{1F}')
    || c == ' '
    || c == '\U{85}'
    || c == '\U{A0}'
    || c == '\U{1680}'
    || ('\U{2000}' <= c <= '\U{200A}')
    || c == '\U{2028}'
    || c == '\U{2029}'
    || c == '\U{202F}'
    || c == '\U{205F}'
    || c == '\U{3000}'
  }

  /** A field that `str.split()` can produce: non-empty, with no whitespace. */
  predicate IsToken(w: string) {
    |w| > 0 && forall i :: 0 <= i < |w| ==> !IsSpace(w[i])
  }

  predicate StartsWith(s: string, prefix: string) {
    |prefix| <= |s| && s[..|prefix|] == prefix
  }

  /** `pat` occurs in `text` starting at position `i`. */
  predicate OccursAt(text: string, pat: string, i: nat) {
    i + |pat| <= |text| && text[i..i + |pat|] == pat
  }

  /** Python's `pat in text` for strings: some position of `text` starts
      with `pat`. The empty pattern is contained in every string. */
  predicate Contains(text: string, pat: string)
    decreases |text|
  {
    StartsWith(text, pat) || (|text| > 0 && Contains(text[1..], pat))
  }

  /** The scanning definition of `Contains` agrees with the positional one. */
  lemma {:induction false} ContainsIffOccurs(text: string, pat: string)
    ensures Contains(text, pat) <==> exists i: nat :: OccursAt(text, pat, i)
    decreases |text|
  {
    if Contains(text, pat) {
      if StartsWith(text, pat) {
        assert OccursAt(text, pat, 0);
      } else {
        ContainsIffOccurs(text[1..], pat);
        var i: nat :| OccursAt(text[1..], pat, i);
        assert text[1..][i..i + |pat|] == text[i + 1..i + 1 + |pat|];
        assert OccursAt(text, pat, i + 1);
      }
    }
    if i: nat :| OccursAt(text, pat, i) {
      if i > 0 {
        assert text[1..][i - 1..i - 1 + |pat|] == text[i..i + |pat|];
        assert OccursAt(text[1..], pat, i - 1);
        ContainsIffOccurs(text[1..], pat);
      }
    }
  }

  /** Length of the longest whitespace-free prefix of `s`. */
  function TokenLen(s: string): (n: nat)
    ensures n <= |s|
    ensures forall i :: 0 <= i < n ==> !IsSpace(s[i])
    ensures n < |s| ==> IsSpace(s[n])
  {
    if |s| == 0 || IsSpace(s[0]) then 0 else 1 + TokenLen(s[1..])
  }

  /** Python's `s.split()`: the maximal runs of non-whitespace characters,
      in order. Leading, trailing and repeated whitespace yield no empty
      fields. */
  function Split(s: string): (ws: seq<string>)
    ensures forall k :: 0 <= k < |ws| ==> IsToken(ws[k])
    decreases |s|
  {
    if |s| == 0 then []
    else if IsSpace(s[0]) then Split(s[1..])
    else
      var n := TokenLen(s);
      [s[..n]] + Split(s[n..])
  }

  /** The tokens joined by single spaces: what `" ".join(ws)` gives. */
  function Join(ws: seq<string>): string {
    if |ws| == 0 then ""
    else if |ws| == 1 then ws[0]
    else ws[0] + " " + Join(ws[1..])
  }

  /** The characters of `s` that are not whitespace, in order. */
  function NonSpace(s: string): string {
    if |s| == 0 then ""
    else if IsSpace(s[0]) then NonSpace(s[1..])
    else [s[0]] + NonSpace(s[1..])
  }

  /** All fields of a token list, concatenated. */
  function Concat(ws: seq<string>): string {
    if |ws| == 0 then "" else ws[0] + Concat(ws[1..])
  }

  lemma {:induction false} TokenLenOfToken(w: string, rest: string)
    requires IsToken(w)
    requires |rest| == 0 || IsSpace(rest[0])
    ensures TokenLen(w + rest) == |w|
    decreases |w|
  {
    if |w| > 1 {
      assert (w + rest)[1..] == w[1..] + rest;
      TokenLenOfToken(w[1..], rest);
    } else {
      assert (w + rest)[1..] == rest;
    }
  }

  /** A token followed by whitespace (or nothing) splits off as one field. */
  lemma {:induction false} SplitToken(w: string, rest: string)
    requires IsToken(w)
    requires |rest| == 0 || IsSpace(rest[0])
    ensures Split(w + rest) == [w] + Split(rest)
  {
    TokenLenOfToken(w, rest);
    var s := w + rest;
    assert s[..|w|] == w;
    assert s[|w|..] == rest;
  }

  /** Splitting undoes joining with single spaces, for any list of tokens. */
  lemma {:induction false} SplitJoin(ws: seq<string>)
    requires forall k :: 0 <= k < |ws| ==> IsToken(ws[k])
    ensures Split(Join(ws)) == ws
  {
    if |ws| == 0 {
    } else if |ws| == 1 {
      SplitToken(ws[0], "");
      assert ws[0] + "" == ws[0];
    } else {
      var tail := " " + Join(ws[1..]);
      assert Join(ws) == ws[0] + tail;
      SplitToken(ws[0], tail);
      assert tail[1..] == Join(ws[1..]);
      SplitJoin(ws[1..]);
      assert Split(tail) == Split(Join(ws[1..]));
    }
  }

  lemma {:induction false} NonSpaceAppend(a: string, b: string)
    ensures NonSpace(a + b) == NonSpace(a) + NonSpace(b)
    decreases |a|
  {
    if |a| > 0 {
      assert (a + b)[1..] == a[1..] + b;
      NonSpaceAppend(a[1..], b);
    } else {
      assert a + b == b;
    }
  }

  lemma {:induction false} NonSpaceOfToken(w: string)
    requires forall i :: 0 <= i < |w| ==> !IsSpace(w[i])
    ensures NonSpace(w) == w
    decreases |w|
  {
    if |w| > 0 {
      NonSpaceOfToken(w[1..]);
      assert w == [w[0]] + w[1..];
    }
  }

  /** Splitting loses only whitespace: the fields, concatenated, are exactly
      the non-whitespace characters of the input in their original order. */
  lemma {:induction false} SplitKeepsContent(s: string)
    ensures Concat(Split(s)) == NonSpace(s)
    decreases |s|
  {
    if |s| == 0 {
    } else if IsSpace(s[0]) {
      SplitKeepsContent(s[1..]);
    } else {
      var n := TokenLen(s);
      SplitKeepsContent(s[n..]);
      assert s == s[..n] + s[n..];
      NonSpaceAppend(s[..n], s[n..]);
      NonSpaceOfToken(s[..n]);
      var ws := [s[..n]] + Split(s[n..]);
      assert ws[1..] == Split(s[n..]);
    }
  }

  /** Leading whitespace of any length and kind yields no field. */
  lemma {:induction false} SplitSkipsSpaces(sp: string, rest: string)
    requires forall i :: 0 <= i < |sp| ==> IsSpace(sp[i])
    ensures Split(sp + rest) == Split(rest)
    decreases |sp|
  {
    if |sp| > 0 {
      assert (sp + rest)[1..] == sp[1..] + rest;
      SplitSkipsSpaces(sp[1..], rest);
    } else {
      assert sp + rest == rest;
    }
  }

  /** Fields break exactly at whitespace runs: a token, then a non-empty run
      of whitespace characters of any length and kind, splits into that
      token followed by the fields of what comes after. */
  lemma {:induction false} SplitAtSpaceRun(a: string, sp: string, b: string)
    requires IsToken(a)
    requires |sp| > 0 && forall i :: 0 <= i < |sp| ==> IsSpace(sp[i])
    ensures Split(a + sp + b) == Split(a) + Split(b)
  {
    SplitToken(a, "");
    assert a + "" == a;
    assert a + sp + b == a + (sp + b);
    SplitToken(a, sp + b);
    SplitSkipsSpaces(sp, b);
  }
}
