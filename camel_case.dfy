/**
 * Sentence casing: split a string into whitespace-separated words, lower-case
 * the first word, capitalize every later word, and re-join the words with
 * single spaces. Casing is ASCII casing, as Python 2's byte-string `lower`
 * and `capitalize` do under the C locale.
 */
module CamelCase {

  /** Python 2's whitespace for byte strings: space, tab, newline, vertical tab, form feed, carriage return. */
  predicate IsSpace(c: char)
  {
    c == ' ' || '\t' <= c <= '\r'
  }

  predicate IsUpper(c: char)
  {
    'A' <= c <= 'Z'
  }

  predicate IsLower(c: char)
  {
    'a' <= c <= 'z'
  }

  /** A word as `split()` produces it: non-empty, with no whitespace. */
  predicate IsWord(w: string)
  {
    |w| > 0 && forall i :: 0 <= i < |w| ==> !IsSpace(w[i])
  }

  predicate AllWords(ws: seq<string>)
  {
    forall k :: 0 <= k < |ws| ==> IsWord(ws[k])
  }

  /**
   * A string in normal form: every whitespace character is a single space
   * with a non-whitespace character on each side, so there is no leading,
   * trailing or repeated whitespace.
   */
  predicate Normalised(t: string)
  {
    forall i :: 0 <= i < |t| && IsSpace(t[i]) ==>
      t[i] == ' ' && 0 < i < |t| - 1 && !IsSpace(t[i - 1]) && !IsSpace(t[i + 1])
  }

  /** ASCII lower-casing of one character: upper-case letters move to lower case, everything else stays. */
  function LowerChar(c: char): (r: char)
    ensures !IsUpper(r)
    ensures IsUpper(c) ==> IsLower(r) && r as int - 'a' as int == c as int - 'A' as int
    ensures !IsUpper(c) ==> r == c
  {
    if IsUpper(c) then (c as int + 32) as char else c
  }

  /** ASCII upper-casing of one character: lower-case letters move to upper case, everything else stays. */
  function UpperChar(c: char): (r: char)
    ensures !IsLower(r)
    ensures IsLower(c) ==> IsUpper(r) && r as int - 'A' as int == c as int - 'a' as int && LowerChar(r) == c
    ensures !IsLower(c) ==> r == c
  {
    if IsLower(c) then (c as int - 32) as char else c
  }

  /** `str.lower()`: every character lower-cased, position by position. */
  function Lower(w: string): (r: string)
    ensures |r| == |w|
    ensures forall i :: 0 <= i < |w| ==> r[i] == LowerChar(w[i])
  {
    if w == [] then [] else [LowerChar(w[0])] + Lower(w[1..])
  }

  /** `str.capitalize()`: the first character upper-cased, all the others lower-cased. */
  function Capitalize(w: string): (r: string)
    ensures |r| == |w|
    ensures |w| > 0 ==> r[0] == UpperChar(w[0])
    ensures forall i :: 1 <= i < |w| ==> r[i] == LowerChar(w[i])
  {
    if w == [] then [] else [UpperChar(w[0])] + Lower(w[1..])
  }

  /** Length of the leading run of non-whitespace characters: the run ends at the string's end or at whitespace. */
  function WordLength(s: string): (n: nat)
    ensures n <= |s|
    ensures forall i :: 0 <= i < n ==> !IsSpace(s[i])
    ensures n < |s| ==> IsSpace(s[n])
  {
    if s == [] || IsSpace(s[0]) then 0 else 1 + WordLength(s[1..])
  }

  /** `str.split()` with no separator: the maximal runs of non-whitespace, in order. */
  function Words(s: string): (ws: seq<string>)
    ensures AllWords(ws)
    decreases |s|
  {
    if s == [] then []
    else if IsSpace(s[0]) then Words(s[1..])
    else
      var n := WordLength(s);
      [s[..n]] + Words(s[n..])
  }

  /** The words run together, with nothing between them. */
  function Concat(ws: seq<string>): string
  {
    if ws == [] then "" else ws[0] + Concat(ws[1..])
  }

  /** The non-whitespace characters of `s`, in order. */
  function NonSpace(s: string): string
  {
    if s == [] then "" else (if IsSpace(s[0]) then "" else [s[0]]) + NonSpace(s[1..])
  }

  /**
   * `' '.join(ws)`: the words in order with one separator between each two;
   * it adds |ws| - 1 characters, and for a list of words they are all
   * whitespace, so dropping the whitespace leaves the words run together.
   */
  function JoinWords(ws: seq<string>): (r: string)
    ensures |ws| > 0 ==> |r| == |Concat(ws)| + |ws| - 1
    ensures AllWords(ws) ==> NonSpace(r) == Concat(ws)
  {
    if ws == [] then ""
    else if |ws| == 1 then
      assert Concat(ws) == ws[0] + Concat([]);
      if AllWords(ws) then
        assert IsWord(ws[0]);
        NonSpaceOfRun(ws[0]);
        ws[0]
      else ws[0]
    else
      var rest := JoinWords(ws[1..]);
      JoinStep(ws, rest);
      ws[0] + " " + rest
  }

  /** One step of the join: what holds of the joined tail carries over to `ws[0] + " " + rest`. */
  lemma JoinStep(ws: seq<string>, rest: string)
    requires |ws| > 1
    requires |rest| == |Concat(ws[1..])| + |ws| - 2
    requires AllWords(ws[1..]) ==> NonSpace(rest) == Concat(ws[1..])
    ensures |ws[0] + " " + rest| == |Concat(ws)| + |ws| - 1
    ensures AllWords(ws) ==> NonSpace(ws[0] + " " + rest) == Concat(ws)
  {
    if AllWords(ws) {
      assert AllWords(ws[1..]) && IsWord(ws[0]);
      NonSpaceAppend(ws[0] + " ", rest);
      NonSpaceAppend(ws[0], " ");
      NonSpaceOfRun(ws[0]);
    }
  }

  /**
   * The casing the loop applies at list position `index`: every character
   * after the first is lower-cased; the first is upper-cased after position
   * 0 and lower-cased at position 0.
   */
  function CaseAt(w: string, index: nat): (r: string)
    ensures |r| == |w|
    ensures |w| > 0 ==> r[0] == (if index > 0 then UpperChar(w[0]) else LowerChar(w[0]))
    ensures forall i :: 1 <= i < |w| ==> r[i] == LowerChar(w[i])
  {
    if index > 0 then Capitalize(w) else Lower(w)
  }

  /** Every word cased according to its position: lower-cased at 0, capitalized after. */
  function CaseWords(ws: seq<string>): (r: seq<string>)
    ensures |r| == |ws|
    ensures |ws| > 0 ==> r[0] == Lower(ws[0])
    ensures forall k :: 1 <= k < |ws| ==> r[k] == Capitalize(ws[k])
  {
    seq(|ws|, k requires 0 <= k < |ws| => CaseAt(ws[k], k))
  }

  /**
   * toCamelCase as a function of its input: split, case by position, join.
   * The output's words are the input's words cased by position, and the
   * output is in normal form.
   */
  function CamelCase(s: string): (r: string)
    ensures Words(r) == CaseWords(Words(s))
    ensures Normalised(r)
  {
    var ws := CaseWords(Words(s));
    CaseWordsAreWords(Words(s));
    WordsOfJoin(ws);
    JoinNormalised(ws);
    JoinWords(ws)
  }

  /**
   * toCamelCase(string_input), returning the string the source prints.
   * The output's words are the input's words, as many and in the same
   * order, the first lower-cased and every later one capitalized, and
   * the output is in normal form: single spaces between words only.
   */
  method ToCamelCase(input: string) returns (output: string)
    ensures output == CamelCase(input)
    ensures |Words(output)| == |Words(input)|
    ensures |Words(input)| > 0 ==> Words(output)[0] == Lower(Words(input)[0])
    ensures forall k :: 1 <= k < |Words(input)| ==> Words(output)[k] == Capitalize(Words(input)[k])
    ensures Normalised(output)
    ensures output == "" <==> forall i :: 0 <= i < |input| ==> IsSpace(input[i])
  {
    var words := Words(input);
    var index := 0;
    while index < |words|
      invariant 0 <= index <= |words| == |Words(input)|
      invariant forall k :: 0 <= k < index ==> words[k] == CaseAt(Words(input)[k], k)
      invariant forall k :: index <= k < |words| ==> words[k] == Words(input)[k]
    {
      if index > 0 {
        words := words[index := Capitalize(words[index])];
      } else {
        words := words[index := Lower(words[index])];
      }
      index := index + 1;
    }
    assert words == CaseWords(Words(input));
    output := JoinWords(words);
    CamelCaseEmptyIffBlank(input);
  }

  // ---------------------------------------------------------------------
  // Properties of the casing functions

  /** Cased words are still words: casing never creates or removes whitespace. */
  lemma CaseAtIsWord(w: string, index: nat)
    requires IsWord(w)
    ensures IsWord(CaseAt(w, index))
  {
  }

  lemma CaseWordsAreWords(ws: seq<string>)
    requires AllWords(ws)
    ensures AllWords(CaseWords(ws))
  {
    forall k | 0 <= k < |ws|
      ensures IsWord(CaseWords(ws)[k])
    {
      CaseAtIsWord(ws[k], k);
    }
  }

  /** Lower-casing and capitalizing are idempotent. */
  lemma CaseAtIdempotent(w: string, index: nat)
    ensures CaseAt(CaseAt(w, index), index) == CaseAt(w, index)
  {
    var c := CaseAt(w, index);
    assert forall i :: 0 <= i < |w| ==> CaseAt(c, index)[i] == c[i];
  }

  /**
   * Updates go by position, not by value: the same word at position 0 and at
   * a later position k is cased differently when it starts with a letter.
   */
  lemma SameWordCasedByPosition(ws: seq<string>, k: nat)
    requires 0 < k < |ws| && ws[0] == ws[k] && |ws[0]| > 0
    requires IsUpper(ws[0][0]) || IsLower(ws[0][0])
    ensures CaseWords(ws)[0] != CaseWords(ws)[k]
    ensures IsLower(CaseWords(ws)[0][0]) && IsUpper(CaseWords(ws)[k][0])
  {
  }

  // ---------------------------------------------------------------------
  // split() and ' '.join() on words

  /** Splitting a run of words joined by single spaces gives back the words. */
  lemma {:induction false} WordsOfJoin(ws: seq<string>)
    requires AllWords(ws)
    ensures Words(JoinWords(ws)) == ws
    decreases |ws|
  {
    if ws == [] {
    } else {
      var w := ws[0];
      var t := JoinWords(ws);
      assert IsWord(w);
      if |ws| == 1 {
        assert t == w;
        var n := WordLength(t);
        assert n == |w|;
        assert t[..n] == w && t[n..] == [];
      } else {
        var rest := JoinWords(ws[1..]);
        assert t == w + " " + rest;
        var n := WordLength(t);
        assert t[|w|] == ' ';
        assert n == |w|;
        assert t[..n] == w;
        assert t[n..] == " " + rest;
        assert t[n..][1..] == rest;
        WordsOfJoin(ws[1..]);
        assert Words(t) == [w] + ws[1..];
      }
    }
  }

  /** Joining words with single spaces gives a string in normal form. */
  lemma {:induction false} JoinNormalised(ws: seq<string>)
    requires AllWords(ws)
    ensures Normalised(JoinWords(ws))
    ensures |ws| > 0 ==> |JoinWords(ws)| > 0 && !IsSpace(JoinWords(ws)[0]) && !IsSpace(JoinWords(ws)[|JoinWords(ws)| - 1])
    decreases |ws|
  {
    if |ws| > 1 {
      var w := ws[0];
      var rest := JoinWords(ws[1..]);
      var t := JoinWords(ws);
      assert IsWord(w);
      JoinNormalised(ws[1..]);
      assert t == w + " " + rest;
      forall i | 0 <= i < |t| && IsSpace(t[i])
        ensures t[i] == ' ' && 0 < i < |t| - 1 && !IsSpace(t[i - 1]) && !IsSpace(t[i + 1])
      {
        if i > |w| {
          assert t[i] == rest[i - |w| - 1];
          if i - |w| - 1 > 0 {
            assert t[i - 1] == rest[i - |w| - 2];
          }
          assert t[i + 1] == rest[i - |w|];
        }
      }
    } else if |ws| == 1 {
      assert IsWord(ws[0]);
    }
  }

  /** Dropping whitespace distributes over concatenation. */
  lemma {:induction false} NonSpaceAppend(a: string, b: string)
    ensures NonSpace(a + b) == NonSpace(a) + NonSpace(b)
    decreases |a|
  {
    if a != [] {
      assert (a + b)[0] == a[0] && (a + b)[1..] == a[1..] + b;
      NonSpaceAppend(a[1..], b);
    } else {
      assert a + b == b;
    }
  }

  /** A run without whitespace is kept whole. */
  lemma {:induction false} NonSpaceOfRun(w: string)
    requires forall i :: 0 <= i < |w| ==> !IsSpace(w[i])
    ensures NonSpace(w) == w
    decreases |w|
  {
    if w != [] {
      NonSpaceOfRun(w[1..]);
      assert w == [w[0]] + w[1..];
    }
  }

  /**
   * split() keeps every non-whitespace character, in order, and only those:
   * the words run together are the string with its whitespace dropped.
   */
  lemma {:induction false} WordsKeepContent(s: string)
    ensures Concat(Words(s)) == NonSpace(s)
    decreases |s|
  {
    if s != [] {
      if IsSpace(s[0]) {
        WordsKeepContent(s[1..]);
      } else {
        var n := WordLength(s);
        var rest := Words(s[n..]);
        assert Words(s) == [s[..n]] + rest;
        assert ([s[..n]] + rest)[1..] == rest;
        WordsKeepContent(s[n..]);
        assert s == s[..n] + s[n..];
        NonSpaceAppend(s[..n], s[n..]);
        NonSpaceOfRun(s[..n]);
      }
    }
  }

  /** A suffix of a normal-form string that starts at a non-whitespace character is in normal form. */
  lemma NormalisedSuffix(s: string, k: nat)
    requires Normalised(s) && k < |s| && !IsSpace(s[k])
    ensures Normalised(s[k..])
  {
    var t := s[k..];
    forall i | 0 <= i < |t| && IsSpace(t[i])
      ensures t[i] == ' ' && 0 < i < |t| - 1 && !IsSpace(t[i - 1]) && !IsSpace(t[i + 1])
    {
      assert t[i] == s[k + i];
    }
  }

  /** A string in normal form is either one word, or a word, one space and a normal-form rest. */
  lemma NormalisedSplit(s: string) returns (w: string, t: string)
    requires Normalised(s) && s != []
    ensures Words(s) == [w] + Words(t)
    ensures (t == [] && s == w) || (Normalised(t) && Words(t) != [] && s == w + " " + t)
    ensures |t| < |s|
  {
    var n := WordLength(s);
    w := s[..n];
    if n == |s| {
      t := [];
      assert w == s && s[n..] == [];
    } else {
      t := s[n + 1..];
      assert s[n] == ' ' && n + 1 < |s| && !IsSpace(s[n + 1]);
      assert s[n..][0] == ' ' && s[n..][1..] == t;
      assert s == w + " " + t;
      NormalisedSuffix(s, n + 1);
      assert t[0] == s[n + 1];
    }
  }

  /** WordLength is the only length that its contract allows. */
  lemma WordLengthUnique(s: string, m: nat)
    requires m <= |s|
    requires forall i :: 0 <= i < m ==> !IsSpace(s[i])
    requires m < |s| ==> IsSpace(s[m])
    ensures WordLength(s) == m
  {
  }

  /** split() of a single word is that word alone. */
  lemma WordsOfWord(w: string)
    requires IsWord(w)
    ensures Words(w) == [w]
  {
    var n := WordLength(w);
    assert n == |w|;
    assert w[..n] == w && w[n..] == [];
  }

  /** split() cuts at every whitespace character: at position k of s, it splits s[..k] and s[k+1..] apart. */
  lemma {:induction false} WordsSplitAt(s: string, k: nat)
    requires k < |s| && IsSpace(s[k])
    ensures Words(s) == Words(s[..k]) + Words(s[k + 1..])
    decreases |s|
  {
    if IsSpace(s[0]) {
      if k > 0 {
        WordsSplitAt(s[1..], k - 1);
      }
      WordsSplitAfterSpace(s, k);
    } else {
      var n := WordLength(s);
      assert n <= k;
      if n < k {
        WordsSplitAt(s[n..], k - n);
      }
      WordsSplitAfterWord(s, k, n);
    }
  }

  /** WordsSplitAt when s starts with whitespace: that whitespace is dropped from the left part. */
  lemma WordsSplitAfterSpace(s: string, k: nat)
    requires k < |s| && IsSpace(s[k]) && IsSpace(s[0])
    requires k > 0 ==> Words(s[1..]) == Words(s[1..][..k - 1]) + Words(s[1..][k..])
    ensures Words(s) == Words(s[..k]) + Words(s[k + 1..])
  {
    if k == 0 {
      assert s[..k] == [] && s[1..] == s[k + 1..];
    } else {
      var p := s[..k];
      assert p[0] == s[0] && p[1..] == s[1..][..k - 1];
      assert s[1..][k..] == s[k + 1..];
    }
  }

  /** WordsSplitAt when s starts with a word of length n: the word goes to the left part. */
  lemma WordsSplitAfterWord(s: string, k: nat, n: nat)
    requires k < |s| && IsSpace(s[k]) && !IsSpace(s[0])
    requires n == WordLength(s) && n <= k
    requires n < k ==> Words(s[n..]) == Words(s[n..][..k - n]) + Words(s[n..][k - n + 1..])
    ensures Words(s) == Words(s[..k]) + Words(s[k + 1..])
  {
    WordsFirst(s);
    if n == k {
      WordEndsAtSpace(s, k);
    } else {
      WordThenMore(s, k, n);
    }
  }

  /** A leading word that ends at the whitespace at k: it is all of s[..k]. */
  lemma WordEndsAtSpace(s: string, k: nat)
    requires k < |s| && IsSpace(s[k]) && k == WordLength(s) && k > 0
    ensures Words(s[..k]) == [s[..k]]
    ensures Words(s[k..]) == Words(s[k + 1..])
  {
    WordsOfWord(s[..k]);
    assert s[k..][0] == s[k] && s[k..][1..] == s[k + 1..];
  }

  /** A leading word that ends before k: it is also the leading word of s[..k]. */
  lemma WordThenMore(s: string, k: nat, n: nat)
    requires k < |s| && !IsSpace(s[0]) && n == WordLength(s) && n < k
    ensures Words(s[..k]) == [s[..n]] + Words(s[n..][..k - n])
    ensures s[n..][k - n + 1..] == s[k + 1..]
  {
    var p := s[..k];
    assert p[0] == s[0];
    WordLengthUnique(p, n);
    WordsFirst(p);
    assert p[..n] == s[..n];
    assert s[n..][..k - n] == p[n..];
  }

  /** A string that starts with a non-whitespace character: its first word is its leading run. */
  lemma WordsFirst(s: string)
    requires s != [] && !IsSpace(s[0])
    ensures Words(s) == [s[..WordLength(s)]] + Words(s[WordLength(s)..])
  {
  }

  /**
   * The words of `a + [c] + b`, for a whitespace character c, are the words
   * of `a` followed by the words of `b`. With WordsOfWord and
   * WordsEmptyIffBlank this fixes the words of every string, so each word
   * is a maximal run of non-whitespace.
   */
  lemma WordsAtSpace(a: string, c: char, b: string)
    requires IsSpace(c)
    ensures Words(a + [c] + b) == Words(a) + Words(b)
  {
    var s := a + [c] + b;
    assert s[|a|] == c;
    WordsSplitAt(s, |a|);
    assert s[..|a|] == a && s[|a| + 1..] == b;
  }

  /** The other round trip: a string in normal form is re-joined from its words unchanged. */
  lemma {:induction false} JoinWordsOfNormalised(s: string)
    requires Normalised(s)
    ensures JoinWords(Words(s)) == s
    decreases |s|
  {
    if s != [] {
      var w, t := NormalisedSplit(s);
      if t != [] {
        JoinWordsOfNormalised(t);
        assert ([w] + Words(t))[1..] == Words(t);
      }
    }
  }

  /** split() finds no word exactly when the string is all whitespace. */
  lemma {:induction false} WordsEmptyIffBlank(s: string)
    ensures Words(s) == [] <==> forall i :: 0 <= i < |s| ==> IsSpace(s[i])
    decreases |s|
  {
    if s != [] && IsSpace(s[0]) {
      WordsEmptyIffBlank(s[1..]);
      assert forall i :: 1 <= i < |s| ==> s[i] == s[1..][i - 1];
    }
  }

  // ---------------------------------------------------------------------
  // Properties of toCamelCase

  /** Empty or whitespace-only input, and only that, gives the empty string. */
  lemma CamelCaseEmptyIffBlank(s: string)
    ensures CamelCase(s) == "" <==> forall i :: 0 <= i < |s| ==> IsSpace(s[i])
  {
    WordsEmptyIffBlank(s);
    CaseWordsAreWords(Words(s));
    JoinNormalised(CaseWords(Words(s)));
  }

  /** Casing an already cased sentence changes nothing. */
  lemma CamelCaseIdempotent(s: string)
    ensures CamelCase(CamelCase(s)) == CamelCase(s)
  {
    var ws := CaseWords(Words(s));
    forall k | 0 <= k < |ws|
      ensures CaseWords(ws)[k] == ws[k]
    {
      CaseAtIdempotent(Words(s)[k], k);
    }
    assert CaseWords(ws) == ws;
  }
}
