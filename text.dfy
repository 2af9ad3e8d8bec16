/**
 * The whitespace normaliser applied to every translation before it is stored
 * (`clean_text`), together with the pieces of Python's `str` it is built from:
 * `replace`, argument-less `split`, `' '.join` and argument-less `strip`.
 */
module Text {

  /** The characters Python's `str.isspace` accepts; argument-less `split` and
      `strip` break on exactly these. */
  predicate IsSpace(c: char) {
    || c == ' ' || c == '\t' || c == '\n' || c == '\r'
    || c == '\U{0B}' || c == '\U{0C}'
    || ('\U{1C}' <= c <= '\U{1F}')
    || c == '\U{85}' || c == '\U{A0}' || c == '\U{1680}'
    || ('\U{2000}' <= c <= '\U{200A}')
    || c == '\U{2028}' || c == '\U{2029}' || c == '\U{202F}' || c == '\U{205F}'
    || c == '\U{3000}'
  }

  /** A word as `split` produces it: non-empty, with no whitespace inside. */
  predicate IsWord(w: string) {
    w != [] && forall i :: 0 <= i < |w| ==> !IsSpace(w[i])
  }

  predicate AllWords(ws: seq<string>) {
    forall k :: 0 <= k < |ws| ==> IsWord(ws[k])
  }

  /** The shape `clean_text` promises: the only whitespace is a single ' '
      standing between two non-whitespace characters. */
  predicate IsClean(s: string) {
    forall i :: 0 <= i < |s| && IsSpace(s[i]) ==>
      s[i] == ' ' && 0 < i < |s| - 1 && !IsSpace(s[i + 1])
  }

  /** `s.replace('\r', ' ').replace('\n', ' ')` */
  function ReplaceNewlines(s: string): (r: string)
    ensures |r| == |s|
    ensures forall i :: 0 <= i < |s| ==>
      r[i] == (if s[i] == '\r' || s[i] == '\n' then ' ' else s[i])
  {
    if s == [] then []
    else [if s[0] == '\r' || s[0] == '\n' then ' ' else s[0]] + ReplaceNewlines(s[1..])
  }

  /** Argument-less `s.split()`: the maximal runs of non-whitespace characters,
      in order. A character that is not whitespace either starts a new word or,
      when the next character is not whitespace either, is glued to the front
      of the word the rest of the string starts with. */
  function Split(s: string): (ws: seq<string>)
    ensures AllWords(ws)
    ensures s != [] && !IsSpace(s[0]) ==> ws != []
  {
    if s == [] then []
    else if IsSpace(s[0]) then Split(s[1..])
    else
      var rest := Split(s[1..]);
      if |s| > 1 && !IsSpace(s[1]) then [[s[0]] + rest[0]] + rest[1..]
      else [[s[0]]] + rest
  }

  /** `' '.join(ws)` */
  function Join(ws: seq<string>): string {
    if ws == [] then ""
    else if |ws| == 1 then ws[0]
    else ws[0] + " " + Join(ws[1..])
  }

  /** `clean_text`: empty input is returned unchanged; otherwise carriage returns
      and line feeds become spaces, and the words are rejoined with one space. */
  function CleanText(text: string): string {
    if text == [] then text
    else Join(Split(ReplaceNewlines(text)))
  }

  /** Leading whitespace removed, as the left half of `str.strip()`. */
  function TrimStart(s: string): (r: string)
    ensures r == [] || !IsSpace(r[0])
    ensures |r| <= |s|
  {
    if s != [] && IsSpace(s[0]) then TrimStart(s[1..]) else s
  }

  /** What `TrimStart` removes is a prefix of whitespace only. */
  lemma {:induction false} TrimStartDropsLeadingSpace(s: string)
    ensures var r := TrimStart(s);
      r == s[|s| - |r|..] && forall i :: 0 <= i < |s| - |r| ==> IsSpace(s[i])
  {
    if s != [] && IsSpace(s[0]) {
      TrimStartDropsLeadingSpace(s[1..]);
    }
  }

  /** Trailing whitespace removed, as the right half of `str.strip()`. */
  function TrimEnd(s: string): (r: string)
    ensures r == [] || !IsSpace(r[|r| - 1])
    ensures |r| <= |s|
  {
    if s != [] && IsSpace(s[|s| - 1]) then TrimEnd(s[..|s| - 1]) else s
  }

  /** What `TrimEnd` removes is a suffix of whitespace only. */
  lemma {:induction false} TrimEndDropsTrailingSpace(s: string)
    ensures var r := TrimEnd(s);
      r == s[..|r|] && forall i :: |r| <= i < |s| ==> IsSpace(s[i])
    decreases |s|
  {
    if s != [] && IsSpace(s[|s| - 1]) {
      TrimEndDropsTrailingSpace(s[..|s| - 1]);
    }
  }

  /** Argument-less `str.strip()`. */
  function Strip(s: string): string {
    TrimEnd(TrimStart(s))
  }

  /** The non-whitespace characters of `s`, in order. */
  function NonSpace(s: string): string {
    if s == [] then []
    else (if IsSpace(s[0]) then [] else [s[0]]) + NonSpace(s[1..])
  }

  function Concat(ws: seq<string>): string {
    if ws == [] then [] else ws[0] + Concat(ws[1..])
  }

  /** Length of the run of non-whitespace characters `s` starts with. */
  function WordLength(s: string): (n: nat)
    ensures n <= |s|
    ensures forall i :: 0 <= i < n ==> !IsSpace(s[i])
    ensures n < |s| ==> IsSpace(s[n])
  {
    if s == [] || IsSpace(s[0]) then 0 else 1 + WordLength(s[1..])
  }

  // ---------------------------------------------------------------------------
  // How `split` and `join` fit together

  /** A word followed by whitespace (or by nothing) splits off as the first word. */
  lemma {:induction false} SplitLeadingWord(w: string, t: string)
    requires IsWord(w)
    requires t == [] || IsSpace(t[0])
    ensures Split(w + t) == [w] + Split(t)
    decreases |w|
  {
    var s := w + t;
    assert s[1..] == w[1..] + t;
    if |w| == 1 {
      assert s[1..] == t;
      assert [s[0]] == w;
      assert t != [] ==> s[1] == t[0];
    } else {
      SplitLeadingWord(w[1..], t);
      assert s[1] == w[1];
      assert [s[0]] + w[1..] == w;
    }
  }

  /** `split` undoes `' '.join` on any list of words. */
  lemma {:induction false} SplitJoin(ws: seq<string>)
    requires AllWords(ws)
    ensures Split(Join(ws)) == ws
  {
    if ws == [] {
    } else if |ws| == 1 {
      SplitLeadingWord(ws[0], []);
      assert ws[0] + [] == ws[0];
    } else {
      var rest := Join(ws[1..]);
      SplitJoin(ws[1..]);
      SplitLeadingWord(ws[0], " " + rest);
      assert ws[0] + " " + rest == ws[0] + (" " + rest);
      assert (" " + rest)[1..] == rest;
      assert [ws[0]] + ws[1..] == ws;
    }
  }

  /** Joining words gives a string that starts with the first word's first
      character and ends with the last word's last character. */
  lemma {:induction false} JoinEnds(ws: seq<string>)
    requires AllWords(ws) && ws != []
    ensures |Join(ws)| >= |ws[0]|
    ensures Join(ws)[0] == ws[0][0]
    ensures Join(ws)[|Join(ws)| - 1] == ws[|ws| - 1][|ws[|ws| - 1]| - 1]
  {
    if |ws| > 1 {
      var w, j := ws[0], Join(ws[1..]);
      JoinEnds(ws[1..]);
      var s := w + " " + j;
      assert Join(ws) == s;
      assert s[0] == w[0];
      assert s[|s| - 1] == j[|j| - 1];
      assert ws[1..][|ws| - 2] == ws[|ws| - 1];
    }
  }

  /** Joining words with single spaces gives a clean string. */
  lemma {:induction false} JoinIsClean(ws: seq<string>)
    requires AllWords(ws)
    ensures IsClean(Join(ws))
  {
    if |ws| > 1 {
      var w, j := ws[0], Join(ws[1..]);
      JoinIsClean(ws[1..]);
      JoinEnds(ws[1..]);
      var s := w + " " + j;
      assert Join(ws) == s;
      assert forall i :: 0 <= i < |w| ==> s[i] == w[i];
      forall i | |w| <= i < |s| && IsSpace(s[i])
        ensures s[i] == ' ' && 0 < i < |s| - 1 && !IsSpace(s[i + 1])
      {
        if i == |w| {
          assert s[i + 1] == j[0];
        } else {
          assert s[i] == j[i - |w| - 1];
          assert i + 1 < |s| ==> s[i + 1] == j[i - |w|];
        }
      }
    }
  }

  /** The part of a clean string after one of its spaces is clean. */
  lemma CleanAfterSpace(s: string, m: nat)
    requires IsClean(s) && 0 < m < |s| && IsSpace(s[m - 1])
    ensures IsClean(s[m..])
  {
    var t := s[m..];
    forall i | 0 <= i < |t| && IsSpace(t[i])
      ensures t[i] == ' ' && 0 < i < |t| - 1 && !IsSpace(t[i + 1])
    {
      assert t[i] == s[m + i];
      assert i + 1 < |t| ==> t[i + 1] == s[m + i + 1];
    }
  }

  /** On a clean string, `' '.join(s.split())` gives back `s`. */
  lemma {:induction false} JoinSplitClean(s: string)
    requires IsClean(s)
    ensures Join(Split(s)) == s
    decreases |s|
  {
    if s != [] {
      var n := WordLength(s);
      assert n > 0 by { assert !IsSpace(s[0]); }
      var w := s[..n];
      assert IsWord(w);
      if n == |s| {
        SplitLeadingWord(w, []);
        assert w + [] == s;
      } else {
        var t := s[n + 1..];
        assert s[n] == ' ' && n + 1 < |s|;
        assert s == w + ([' '] + t);
        SplitLeadingWord(w, [' '] + t);
        assert ([' '] + t)[1..] == t;
        assert t[0] == s[n + 1];
        CleanAfterSpace(s, n + 1);
        JoinSplitClean(t);
        var ts := Split(t);
        assert ts != [];
        assert Split(s) == [w] + ts;
        assert ([w] + ts)[1..] == ts;
      }
    }
  }

  /** Splitting only looks at which characters are whitespace and at the
      non-whitespace characters themselves. */
  lemma {:induction false} SplitSameShape(s: string, s': string)
    requires |s| == |s'|
    requires forall i :: 0 <= i < |s| ==>
      IsSpace(s[i]) == IsSpace(s'[i]) && (!IsSpace(s[i]) ==> s[i] == s'[i])
    ensures Split(s) == Split(s')
  {
    if s != [] {
      SplitSameShape(s[1..], s'[1..]);
    }
  }

  lemma SplitReplaceNewlines(s: string)
    ensures Split(ReplaceNewlines(s)) == Split(s)
  {
    SplitSameShape(s, ReplaceNewlines(s));
  }

  lemma ReplaceNewlinesNoop(s: string)
    requires forall i :: 0 <= i < |s| ==> s[i] != '\r' && s[i] != '\n'
    ensures ReplaceNewlines(s) == s
  {
  }

  lemma {:induction false} NonSpaceAppend(a: string, b: string)
    ensures NonSpace(a + b) == NonSpace(a) + NonSpace(b)
  {
    if a == [] {
      assert a + b == b;
    } else {
      assert (a + b)[0] == a[0];
      assert (a + b)[1..] == a[1..] + b;
      NonSpaceAppend(a[1..], b);
    }
  }

  lemma {:induction false} NonSpaceOfWord(w: string)
    requires forall i :: 0 <= i < |w| ==> !IsSpace(w[i])
    ensures NonSpace(w) == w
  {
    if w != [] {
      NonSpaceOfWord(w[1..]);
    }
  }

  /** The words of `s`, run together, are its non-whitespace characters. */
  lemma {:induction false} ConcatSplit(s: string)
    ensures Concat(Split(s)) == NonSpace(s)
  {
    if s != [] {
      ConcatSplit(s[1..]);
      if !IsSpace(s[0]) {
        var rest := Split(s[1..]);
        if |s| > 1 && !IsSpace(s[1]) {
          assert Split(s) == [[s[0]] + rest[0]] + rest[1..];
          assert Concat(rest) == rest[0] + Concat(rest[1..]);
        }
      }
    }
  }

  // ---------------------------------------------------------------------------
  // What `clean_text` promises

  /** Empty input comes back unchanged; any other input comes back clean: no
      carriage return or line feed, no leading or trailing whitespace and no two
      adjacent spaces. */
  lemma CleanTextShape(text: string)
    ensures text == [] ==> CleanText(text) == text
    ensures IsClean(CleanText(text))
    ensures var r := CleanText(text);
      && (forall i :: 0 <= i < |r| ==> r[i] != '\r' && r[i] != '\n')
      && (r != [] ==> !IsSpace(r[0]) && !IsSpace(r[|r| - 1]))
      && (forall i :: 0 <= i < |r| - 1 ==> !(r[i] == ' ' && r[i + 1] == ' '))
  {
    if text != [] {
      JoinIsClean(Split(ReplaceNewlines(text)));
    }
    var r := CleanText(text);
    forall i | 0 <= i < |r| ensures r[i] != '\r' && r[i] != '\n' {
      if r[i] == '\r' || r[i] == '\n' {
        assert IsSpace(r[i]);
      }
    }
    if r != [] {
      assert !IsSpace(r[0]);
      assert !IsSpace(r[|r| - 1]);
    }
  }

  /** `clean_text` keeps the words of its input, in order. */
  lemma CleanTextKeepsWords(text: string)
    ensures Split(CleanText(text)) == Split(text)
  {
    if text != [] {
      SplitReplaceNewlines(text);
      SplitJoin(Split(ReplaceNewlines(text)));
    }
  }

  /** `clean_text` keeps every non-whitespace character, in order, and adds none. */
  lemma {:induction false} CleanTextKeepsNonSpace(text: string)
    ensures NonSpace(CleanText(text)) == NonSpace(text)
  {
    CleanTextKeepsWords(text);
    ConcatSplit(text);
    ConcatSplit(CleanText(text));
  }

  /** A string is left unchanged by `clean_text` exactly when it is clean. */
  lemma CleanTextFixedPoints(s: string)
    ensures CleanText(s) == s <==> IsClean(s)
  {
    CleanTextShape(s);
    if IsClean(s) && s != [] {
      forall i | 0 <= i < |s| ensures s[i] != '\r' && s[i] != '\n' {
        if s[i] == '\r' || s[i] == '\n' {
          assert IsSpace(s[i]);
        }
      }
      ReplaceNewlinesNoop(s);
      JoinSplitClean(s);
    }
  }

  /** `clean_text` is idempotent. */
  lemma CleanTextIdempotent(text: string)
    ensures CleanText(CleanText(text)) == CleanText(text)
  {
    CleanTextShape(text);
    CleanTextFixedPoints(CleanText(text));
  }

  lemma {:induction false} SplitTrimStart(s: string)
    ensures Split(TrimStart(s)) == Split(s)
  {
    if s != [] && IsSpace(s[0]) {
      SplitTrimStart(s[1..]);
    }
  }

  lemma {:induction false} SplitDropLastSpace(t: string, c: char)
    requires IsSpace(c)
    ensures Split(t + [c]) == Split(t)
  {
    if t != [] {
      assert (t + [c])[1..] == t[1..] + [c];
      SplitDropLastSpace(t[1..], c);
    }
  }

  lemma {:induction false} SplitTrimEnd(s: string)
    ensures Split(TrimEnd(s)) == Split(s)
    decreases |s|
  {
    if s != [] && IsSpace(s[|s| - 1]) {
      var t := s[..|s| - 1];
      SplitTrimEnd(t);
      assert s == t + [s[|s| - 1]];
      SplitDropLastSpace(t, s[|s| - 1]);
    }
  }

  /** Stripping before cleaning (as `translate` does) changes nothing:
      `clean_text(s.strip()) == clean_text(s)`. */
  lemma CleanTextAfterStrip(s: string)
    ensures CleanText(Strip(s)) == CleanText(s)
  {
    SplitTrimStart(s);
    SplitTrimEnd(TrimStart(s));
    SplitReplaceNewlines(s);
    SplitReplaceNewlines(Strip(s));
  }

  lemma SplitExampleTail()
    ensures Split("\nb  c\r") == ["b", "c"]
  {
    assert Split("  c\r") == ["c"] by {
      SplitLeadingWord("c", "\r");
    }
    SplitLeadingWord("b", "  c\r");
  }

  /** The words of the worked example below. */
  lemma SplitExample()
    ensures Split("a\n\nb  c\r") == ["a", "b", "c"]
  {
    SplitExampleTail();
    SplitLeadingWord("a", "\n\nb  c\r");
  }

  lemma JoinExample()
    ensures Join(["a", "b", "c"]) == "a b c"
  {
    assert Join(["c"]) == "c";
    assert Join(["b", "c"]) == "b c";
  }

  /** The worked example: "a\n\nb  c\r" cleans to "a b c". */
  lemma CleanTextExample()
    ensures CleanText("a\n\nb  c\r") == "a b c"
  {
    SplitExample();
    SplitReplaceNewlines("a\n\nb  c\r");
    JoinExample();
  }
}
