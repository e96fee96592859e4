/** Python string helpers the image-processing code relies on:
    `str.split()` with no separator, `" ".join(...)`, and the character
    classes that `str.split()` and the regular expressions `\s`, `\d`, `\w`
    use. */
module Text {

  /** `c.isspace()`: the characters `str.split()` splits on and that the
      regular-expression class `\s` matches. */
  predicate IsSpace(c: char) {
    var n := c as int;
    n == 32 || 9 <= n <= 13 || 28 <= n <= 31 || n == 0x85 || n == 0xA0 ||
    n == 0x1680 || 0x2000 <= n <= 0x200A || n == 0x2028 || n == 0x2029 ||
    n == 0x202F || n == 0x205F || n == 0x3000
  }

  /** The regular-expression class `\d`, restricted to ASCII digits. */
  predicate IsDigit(c: char) {
    '0' <= c <= '9'
  }

  /** The regular-expression class `\w`, restricted to ASCII. */
  predicate IsWordChar(c: char) {
    IsDigit(c) || 'a' <= c <= 'z' || 'A' <= c <= 'Z' || c == '_'
  }

  predicate NoSpace(s: string) {
    forall i :: 0 <= i < |s| ==> !IsSpace(s[i])
  }

  /** An element of the list `str.split()` returns. */
  predicate IsWord(w: string) {
    w != [] && NoSpace(w)
  }

  predicate AllWords(ws: seq<string>) {
    forall i :: 0 <= i < |ws| ==> IsWord(ws[i])
  }

  /** The word being accumulated, emitted if it is not empty. */
  function Flush(cur: string): (ws: seq<string>)
    requires NoSpace(cur)
    ensures AllWords(ws)
  {
    if cur == [] then [] else [cur]
  }

  /** Splitting `s` when the characters `cur` have already been read into
      the current word. */
  function SplitFrom(s: string, cur: string): (ws: seq<string>)
    requires NoSpace(cur)
    ensures AllWords(ws)
    decreases |s|
  {
    if s == [] then Flush(cur)
    else if IsSpace(s[0]) then Flush(cur) + SplitFrom(s[1..], [])
    else SplitFrom(s[1..], cur + [s[0]])
  }

  /** `s.split()`: the maximal runs of non-whitespace characters. */
  function Words(s: string): (ws: seq<string>)
    ensures AllWords(ws)
  {
    SplitFrom(s, [])
  }

  /** `" ".join(ws)`: the words with one space between neighbours. */
  function Join(ws: seq<string>): (r: string)
    ensures ws != [] ==> |r| == TotalLength(ws) + |ws| - 1
    ensures ws == [] ==> r == []
  {
    if ws == [] then []
    else if |ws| == 1 then ws[0]
    else ws[0] + " " + Join(ws[1..])
  }

  /** The characters of `s` that are not whitespace, in order. */
  function NonSpaces(s: string): string {
    if s == [] then [] else (if IsSpace(s[0]) then [] else [s[0]]) + NonSpaces(s[1..])
  }

  /** `"".join(ws)`. */
  function Concat(ws: seq<string>): string {
    if ws == [] then [] else ws[0] + Concat(ws[1..])
  }

  /** `sum(len(word) for word in ws)`. */
  function TotalLength(ws: seq<string>): nat {
    if ws == [] then 0 else |ws[0]| + TotalLength(ws[1..])
  }

  /** The last `min(n, |ws|)` elements: `ws[-n:]`, or all of `ws` when it is shorter. */
  function LastN<T>(ws: seq<T>, n: nat): (r: seq<T>)
    ensures |r| == if |ws| < n then |ws| else n
    ensures r == ws[|ws| - |r|..]
  {
    if |ws| < n then ws else ws[|ws| - n..]
  }

  // ---------------------------------------------------------------------

  lemma {:induction false} TotalLengthAppend(a: seq<string>, b: seq<string>)
    ensures TotalLength(a + b) == TotalLength(a) + TotalLength(b)
  {
    if a == [] {
      assert a + b == b;
    } else {
      assert (a + b)[1..] == a[1..] + b;
      TotalLengthAppend(a[1..], b);
    }
  }

  lemma {:induction false} ConcatAppend(a: seq<string>, b: seq<string>)
    ensures Concat(a + b) == Concat(a) + Concat(b)
  {
    if a == [] {
      assert a + b == b;
    } else {
      assert (a + b)[1..] == a[1..] + b;
      ConcatAppend(a[1..], b);
    }
  }

  lemma {:induction false} ConcatLength(ws: seq<string>)
    ensures |Concat(ws)| == TotalLength(ws)
  {
    if ws != [] {
      ConcatLength(ws[1..]);
    }
  }

  /** Splitting never loses, reorders or invents a non-whitespace
      character. */
  lemma {:induction false} SplitFromChars(s: string, cur: string)
    requires NoSpace(cur)
    ensures Concat(SplitFrom(s, cur)) == cur + NonSpaces(s)
    decreases |s|
  {
    if s == [] {
      assert cur + [] == cur;
    } else if IsSpace(s[0]) {
      SplitFromChars(s[1..], []);
      ConcatAppend(Flush(cur), SplitFrom(s[1..], []));
      assert Concat(Flush(cur)) == cur;
    } else {
      SplitFromChars(s[1..], cur + [s[0]]);
      assert (cur + [s[0]]) + NonSpaces(s[1..]) == cur + ([s[0]] + NonSpaces(s[1..]));
    }
  }

  /** The words of a text, put back together, are exactly its
      non-whitespace characters in order; so they hold as many characters
      as there are non-whitespace characters. */
  lemma WordsCharacters(s: string)
    ensures Concat(Words(s)) == NonSpaces(s)
    ensures TotalLength(Words(s)) == |NonSpaces(s)|
  {
    SplitFromChars(s, []);
    assert [] + NonSpaces(s) == NonSpaces(s);
    ConcatLength(Words(s));
  }

  /** A string of whitespace only has no words. */
  lemma {:induction false} SplitBlank(s: string)
    requires forall i :: 0 <= i < |s| ==> IsSpace(s[i])
    ensures SplitFrom(s, []) == []
    decreases |s|
  {
    if s != [] {
      SplitBlank(s[1..]);
    }
  }

  /** Splitting at a whitespace character splits the words. */
  lemma {:induction false} SplitAtSpace(a: string, c: char, b: string, cur: string)
    requires NoSpace(cur) && IsSpace(c)
    ensures SplitFrom(a + [c] + b, cur) == SplitFrom(a, cur) + SplitFrom(b, [])
    decreases |a|
  {
    var s := a + [c] + b;
    if a == [] {
      assert s == [c] + b;
      assert s[0] == c && s[1..] == b;
    } else {
      assert s[0] == a[0] && s[1..] == a[1..] + [c] + b;
      if IsSpace(a[0]) {
        SplitAtSpace(a[1..], c, b, []);
      } else {
        SplitAtSpace(a[1..], c, b, cur + [a[0]]);
      }
    }
  }

  /** A run of non-whitespace extends the current word. */
  lemma {:induction false} SplitWord(w: string, cur: string)
    requires NoSpace(cur) && NoSpace(w)
    ensures SplitFrom(w, cur) == Flush(cur + w)
    decreases |w|
  {
    if w == [] {
      assert cur + w == cur;
    } else {
      assert (cur + [w[0]]) + w[1..] == cur + w;
      SplitWord(w[1..], cur + [w[0]]);
    }
  }

  /** `" ".join` followed by `split()` gives the words back. */
  lemma {:induction false} SplitJoin(ws: seq<string>)
    requires AllWords(ws)
    ensures Words(Join(ws)) == ws
  {
    if ws != [] {
      SplitWord(ws[0], []);
      assert [] + ws[0] == ws[0];
      if |ws| > 1 {
        SplitJoin(ws[1..]);
        SplitAtSpace(ws[0], ' ', Join(ws[1..]), []);
        assert ws[0] + " " + Join(ws[1..]) == ws[0] + [' '] + Join(ws[1..]);
        assert ws == [ws[0]] + ws[1..];
      }
    }
  }
}
