/**
 * The two string built-ins the cue builder relies on: str.split() with no
 * separator, which cuts the transcript into words, and ' '.join, which glues
 * a chunk of words back into the text line of a cue.
 */
module Text {
  import opened Common

  /**
   * A character that str.split() treats as a separator: exactly the
   * characters for which Python's str.isspace() holds (the ASCII controls
   * TAB through CR, the four information separators, the space, NEL,
   * NO-BREAK SPACE and the Unicode space separators, line and paragraph
   * separators).
   */
  predicate IsSpace(c: char)
  {
    c == ' ' || ('\t' <= c <= '\r') || ('\U{1C}' <= c <= '\U{1F}') ||
    c == '\U{85}' || c == '\U{A0}' || c == '\U{1680}' ||
    ('\U{2000}' <= c <= '\U{200A}') || c == '\U{2028}' || c == '\U{2029}' ||
    c == '\U{202F}' || c == '\U{205F}' || c == '\U{3000}'
  }

  /** A token as str.split() produces it: non-empty and free of whitespace. */
  predicate IsWord(w: string)
  {
    |w| > 0 && forall i :: 0 <= i < |w| ==> !IsSpace(w[i])
  }

  predicate AllWords(ws: seq<string>)
  {
    forall k :: 0 <= k < |ws| ==> IsWord(ws[k])
  }

  /** The length of the maximal run of non-whitespace characters that starts `s`. */
  function WordLength(s: string): (n: nat)
    requires |s| > 0 && !IsSpace(s[0])
    ensures 1 <= n <= |s|
    ensures IsWord(s[..n])
    ensures n == |s| || IsSpace(s[n])
    decreases |s|
  {
    if |s| == 1 || IsSpace(s[1]) then 1
    else
      var n := 1 + WordLength(s[1..]);
      assert s[..n] == [s[0]] + s[1..][..n - 1];
      n
  }

  /**
   * str.split() with no separator: leading and trailing whitespace is
   * dropped, and every maximal run of non-whitespace characters is one token.
   */
  function Split(s: string): (r: seq<string>)
    ensures AllWords(r)
    decreases |s|
  {
    if |s| == 0 then []
    else if IsSpace(s[0]) then Split(s[1..])
    else
      var n := WordLength(s);
      [s[..n]] + Split(s[n..])
  }

  /** ' '.join(words): the words separated by one space each. */
  function Join(ws: seq<string>): (r: string)
  {
    if |ws| == 0 then ""
    else if |ws| == 1 then ws[0]
    else ws[0] + " " + Join(ws[1..])
  }

  /** The characters of `s` that are not whitespace, in order. */
  function NonSpace(s: string): string
  {
    if s == [] then [] else (if IsSpace(s[0]) then [] else [s[0]]) + NonSpace(s[1..])
  }

  lemma {:induction false} NonSpaceAppend(a: string, b: string)
    ensures NonSpace(a + b) == NonSpace(a) + NonSpace(b)
  {
    if a == [] {
      assert a + b == b;
    } else {
      assert (a + b)[1..] == a[1..] + b;
      NonSpaceAppend(a[1..], b);
    }
  }

  lemma {:induction false} NonSpaceOfWord(w: string)
    requires forall i :: 0 <= i < |w| ==> !IsSpace(w[i])
    ensures NonSpace(w) == w
  {
    if w != [] {
      NonSpaceOfWord(w[1..]);
    }
  }

  /**
   * Splitting loses and invents no character: the tokens, laid end to end,
   * are exactly the non-whitespace characters of the input, in order.
   */
  lemma {:induction false} SplitKeepsCharacters(s: string)
    ensures Concat(Split(s)) == NonSpace(s)
    decreases |s|
  {
    if |s| == 0 {
    } else if IsSpace(s[0]) {
      SplitKeepsCharacters(s[1..]);
    } else {
      var n := WordLength(s);
      var w, t := s[..n], s[n..];
      SplitKeepsCharacters(t);
      WordStep(s, w, t, Split(t));
    }
  }

  /** One token of SplitKeepsCharacters: the word at the head of `s` keeps all its characters. */
  lemma WordStep(s: string, w: string, t: string, ts: seq<string>)
    requires |s| > 0 && !IsSpace(s[0])
    requires w == s[..WordLength(s)] && t == s[WordLength(s)..] && ts == Split(t)
    requires Concat(ts) == NonSpace(t)
    ensures Concat(Split(s)) == NonSpace(s)
  {
    assert Split(s) == [w] + ts;
    assert ([w] + ts)[1..] == ts;
    assert s == w + t;
    NonSpaceAppend(w, t);
    NonSpaceOfWord(w);
  }

  /** A transcript yields no token exactly when it is empty or all whitespace. */
  lemma {:induction false} SplitEmpty(s: string)
    ensures Split(s) == [] <==> forall i :: 0 <= i < |s| ==> IsSpace(s[i])
    decreases |s|
  {
    if |s| == 0 {
    } else if IsSpace(s[0]) {
      SplitEmpty(s[1..]);
      assert forall i :: 1 <= i < |s| ==> s[i] == s[1..][i - 1];
    } else {
    }
  }

  /** The token at the head of `w + rest` is `w` when `w` is a word followed by whitespace or nothing. */
  lemma {:induction false} WordLengthOfWord(w: string, rest: string)
    requires IsWord(w)
    requires rest == [] || IsSpace(rest[0])
    ensures WordLength(w + rest) == |w|
    decreases |w|
  {
    var s := w + rest;
    if |w| == 1 {
    } else {
      assert s[1..] == w[1..] + rest;
      WordLengthOfWord(w[1..], rest);
    }
  }

  /** A word that ends inside `a` is not lengthened by anything appended to `a`. */
  lemma {:induction false} WordLengthPrefix(a: string, t: string)
    requires |a| > 0 && !IsSpace(a[0]) && WordLength(a) < |a|
    ensures WordLength(a + t) == WordLength(a)
    decreases |a|
  {
    var s := a + t;
    assert s[0] == a[0] && s[1] == a[1];
    if !IsSpace(a[1]) {
      assert s[1..] == a[1..] + t;
      WordLengthPrefix(a[1..], t);
    }
  }

  /** A word that fills `a` ends there when whitespace follows. */
  lemma {:induction false} WordLengthFull(a: string, t: string)
    requires |a| > 0 && !IsSpace(a[0]) && WordLength(a) == |a|
    requires t == [] || IsSpace(t[0])
    ensures WordLength(a + t) == |a|
    decreases |a|
  {
    var s := a + t;
    assert s[0] == a[0];
    if |a| > 1 {
      assert s[1] == a[1];
      assert s[1..] == a[1..] + t;
      WordLengthFull(a[1..], t);
    } else if t != [] {
      assert s[1] == t[0];
    }
  }

  /**
   * Every whitespace character is a token boundary, and a run of them is one
   * boundary: splitting around a whitespace character gives the tokens before
   * it followed by the tokens after it.
   */
  lemma {:induction false} SplitAtSpace(a: string, c: char, b: string)
    requires IsSpace(c)
    ensures Split(a + [c] + b) == Split(a) + Split(b)
    decreases |a|
  {
    var s := a + [c] + b;
    if |a| == 0 {
      assert s == [c] + b;
      SplitSkipsSpace(s);
      assert s[1..] == b;
    } else if IsSpace(a[0]) {
      assert s[0] == a[0];
      SplitSkipsSpace(s);
      assert s[1..] == a[1..] + [c] + b;
      SplitAtSpace(a[1..], c, b);
    } else {
      var n := WordLength(a);
      if n < |a| {
        SplitInsideWord(a, c, b, n);
      } else {
        SplitAfterWord(a, c, b);
      }
    }
  }

  /** SplitAtSpace when the first token of `a` ends inside `a`. */
  lemma {:induction false} SplitInsideWord(a: string, c: char, b: string, n: nat)
    requires IsSpace(c) && |a| > 0 && !IsSpace(a[0]) && n == WordLength(a) && n < |a|
    ensures Split(a + [c] + b) == Split(a) + Split(b)
    decreases |a|, 0
  {
    var s := a + [c] + b;
    Around(a, c, b, n);
    WordLengthPrefix(a, [c] + b);
    SplitAtSpace(a[n..], c, b);
    SplitHead(s);
    SplitHead(a);
  }

  /** SplitAtSpace when all of `a` is one token. */
  lemma SplitAfterWord(a: string, c: char, b: string)
    requires IsSpace(c) && |a| > 0 && !IsSpace(a[0]) && WordLength(a) == |a|
    ensures Split(a + [c] + b) == Split(a) + Split(b)
  {
    var s := a + [c] + b;
    var rest := [c] + b;
    Around(a, c, b, |a|);
    WordLengthFull(a, rest);
    SplitHead(s);
    assert Split(s) == [a] + Split(rest);
    SplitSkipsSpace(rest);
    assert rest[1..] == b;
    SplitHead(a);
    assert a[..|a|] == a;
    assert Split(a) == [a];
  }

  /** Where the pieces of `a + [c] + b` sit, cut at a position n within `a`. */
  lemma Around(a: string, c: char, b: string, n: nat)
    requires n <= |a|
    ensures a + [c] + b == a + ([c] + b)
    ensures (a + [c] + b)[0..n] == a[..n] && (a + [c] + b)[..n] == a[..n]
    ensures (a + [c] + b)[n..] == a[n..] + [c] + b
    ensures |a| > 0 ==> (a + [c] + b)[0] == a[0]
    ensures a[|a|..] == []
  {
  }

  /** Split on a string that starts with a token. */
  lemma SplitHead(s: string)
    requires |s| > 0 && !IsSpace(s[0])
    ensures Split(s) == [s[..WordLength(s)]] + Split(s[WordLength(s)..])
  {
  }

  lemma {:induction false} SplitSkipsSpace(s: string)
    requires |s| > 0 && IsSpace(s[0])
    ensures Split(s) == Split(s[1..])
  {
  }

  /**
   * str.split() undoes ' '.join on any list of words: joining the tokens of a
   * chunk and splitting the text line again gives back the same chunk.
   */
  lemma {:induction false} SplitJoin(ws: seq<string>)
    requires AllWords(ws)
    ensures Split(Join(ws)) == ws
    decreases |ws|
  {
    if |ws| == 1 {
      SplitWord(ws[0]);
    } else if |ws| > 1 {
      assert Join(ws) == ws[0] + [' '] + Join(ws[1..]);
      SplitAtSpace(ws[0], ' ', Join(ws[1..]));
      SplitWord(ws[0]);
      SplitJoin(ws[1..]);
      assert ws == [ws[0]] + ws[1..];
    }
  }

  /** A word is its own only token. */
  lemma SplitWord(w: string)
    requires IsWord(w)
    ensures Split(w) == [w]
  {
    WordLengthOfWord(w, []);
    assert w + [] == w;
    assert w[..|w|] == w && w[|w|..] == [];
  }
}
