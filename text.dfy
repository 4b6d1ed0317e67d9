/** Whitespace normalisation and tokenising of text: `normalize_whitespace`,
  * `tokenize` with its default stopwords, and the token rule behind
  * `TextFile.tokens` and `TextFile.token_set`, applied to a string. */
module Text {
  import opened Seqs

  // ---------------------------------------------------------------------
  // normalize_whitespace

  /** Tab, line feed, vertical tab, form feed and carriage return. */
  const UnusualWhitespace: set<char> := {'\t', '\n', '\U{B}', '\U{C}', '\r'}

  /** One entry of the translation table: unusual whitespace becomes a
    * space, every other character stays. */
  function NormalizeChar(c: char): (r: char)
    ensures r !in UnusualWhitespace
    ensures c in UnusualWhitespace ==> r == ' '
    ensures c !in UnusualWhitespace ==> r == c
  {
    if c in UnusualWhitespace then ' ' else c
  }

  /** `normalize_whitespace(dirty_string)`: the translation applied to each
    * character on its own. */
  function NormalizeWhitespace(s: string): (r: string)
    ensures |r| == |s|
    ensures forall i :: 0 <= i < |s| && s[i] in UnusualWhitespace ==> r[i] == ' '
    ensures forall i :: 0 <= i < |s| && s[i] !in UnusualWhitespace ==> r[i] == s[i]
  {
    if s == [] then [] else [NormalizeChar(s[0])] + NormalizeWhitespace(s[1..])
  }

  /** None of the five characters survives. */
  lemma NormalizedHasNoUnusualWhitespace(s: string)
    ensures forall c :: c in NormalizeWhitespace(s) ==> c !in UnusualWhitespace
  {
    var r := NormalizeWhitespace(s);
    forall c | c in r ensures c !in UnusualWhitespace {
      var i :| 0 <= i < |r| && r[i] == c;
    }
  }

  /** Normalising twice is normalising once. */
  lemma NormalizeIdempotent(s: string)
    ensures NormalizeWhitespace(NormalizeWhitespace(s)) == NormalizeWhitespace(s)
  {
    var r := NormalizeWhitespace(s);
    NormalizedHasNoUnusualWhitespace(s);
    assert forall i :: 0 <= i < |r| ==> r[i] !in UnusualWhitespace;
  }

  /** A string without unusual whitespace is left as it is. */
  lemma NormalizeClean(s: string)
    requires forall c :: c in s ==> c !in UnusualWhitespace
    ensures NormalizeWhitespace(s) == s
  {
    assert forall i :: 0 <= i < |s| ==> s[i] in s;
  }

  // ---------------------------------------------------------------------
  // Character classes and their maximal runs

  /** The two token rules: `\w` (letters, digits and `_`) for `tokenize`,
    * and `[-0-9A-Za-z_]` for `TextFile.tokens`. */
  datatype CharClass = Word | TokenChar
  {
    predicate Has(c: char)
    {
      || ('a' <= c <= 'z') || ('A' <= c <= 'Z') || ('0' <= c <= '9') || c == '_'
      || (this == TokenChar && c == '-')
    }
  }

  /** The length of the run of class characters that `s` starts with. */
  function RunLength(cls: CharClass, s: string): (n: nat)
    ensures n <= |s|
    ensures forall i :: 0 <= i < n ==> cls.Has(s[i])
    ensures n < |s| ==> !cls.Has(s[n])
  {
    if s == [] || !cls.Has(s[0]) then 0 else 1 + RunLength(cls, s[1..])
  }

  /** `re.findall(r'<class>+', s)`: the maximal runs of class characters, in
    * order. Each match is greedy, and the next search starts after it. */
  function Runs(cls: CharClass, s: string): (r: seq<string>)
    ensures forall t :: t in r ==> t != [] && forall c :: c in t ==> cls.Has(c)
    decreases |s|
  {
    if s == [] then []
    else if !cls.Has(s[0]) then Runs(cls, s[1..])
    else
      var n := RunLength(cls, s);
      [s[..n]] + Runs(cls, s[n..])
  }

  /** A string with no class character has no run. */
  lemma {:induction false} RunsOfGap(cls: CharClass, s: string)
    requires forall i :: 0 <= i < |s| ==> !cls.Has(s[i])
    ensures Runs(cls, s) == []
    decreases |s|
  {
    if s != [] {
      RunsOfGap(cls, s[1..]);
    }
  }

  /** A string made of class characters only is one run. */
  lemma RunsOfWhole(cls: CharClass, t: string)
    requires t != [] && forall i :: 0 <= i < |t| ==> cls.Has(t[i])
    ensures Runs(cls, t) == [t]
  {
    RunLengthWhole(cls, t);
    assert t[..|t|] == t && t[|t|..] == [];
  }

  lemma {:induction false} RunLengthWhole(cls: CharClass, t: string)
    requires forall i :: 0 <= i < |t| ==> cls.Has(t[i])
    ensures RunLength(cls, t) == |t|
  {
    if t != [] {
      RunLengthWhole(cls, t[1..]);
    }
  }

  /** A run stops at a separator. */
  lemma {:induction false} RunLengthSplit(cls: CharClass, a: string, c: char, b: string)
    requires !cls.Has(c)
    ensures RunLength(cls, a + [c] + b) == RunLength(cls, a)
  {
    if a == [] {
      assert (a + [c] + b)[0] == c;
    } else if cls.Has(a[0]) {
      assert (a + [c] + b)[0] == a[0];
      assert (a + [c] + b)[1..] == a[1..] + [c] + b;
      RunLengthSplit(cls, a[1..], c, b);
    } else {
      assert (a + [c] + b)[0] == a[0];
    }
  }

  /** A character outside the class separates the runs on either side: no
    * run crosses it. */
  lemma {:induction false} RunsSplit(cls: CharClass, a: string, c: char, b: string)
    requires !cls.Has(c)
    ensures Runs(cls, a + [c] + b) == Runs(cls, a) + Runs(cls, b)
    decreases |a|
  {
    var s := a + [c] + b;
    if a == [] {
      assert s[0] == c && s[1..] == b;
    } else {
      var n := if cls.Has(a[0]) then RunLength(cls, a) else 1;
      assert s[0] == a[0];
      RunLengthSplit(cls, a, c, b);
      SplitPrefix(a, [c] + b, n);
      Assoc(a, [c], b);
      Assoc(a[n..], [c], b);
      RunsSplit(cls, a[n..], c, b);
    }
  }

  /** The class characters of `s`, in order. */
  function Keep(cls: CharClass, s: string): (r: string)
    ensures |r| <= |s|
    ensures forall c :: c in r ==> cls.Has(c)
  {
    if s == [] then [] else (if cls.Has(s[0]) then [s[0]] else []) + Keep(cls, s[1..])
  }

  /** The leading run is kept whole, then the rest is filtered. */
  lemma {:induction false} KeepRun(cls: CharClass, s: string)
    ensures Keep(cls, s) == s[..RunLength(cls, s)] + Keep(cls, s[RunLength(cls, s)..])
  {
    if s != [] && cls.Has(s[0]) {
      KeepRun(cls, s[1..]);
      var m := RunLength(cls, s[1..]);
      SliceCons(s, m);
      Assoc([s[0]], s[1..][..m], Keep(cls, s[m + 1..]));
    } else {
      SliceNone(s);
    }
  }

  /** The runs lose no class character and add none: joined together they
    * are the class characters of `s` in their order. */
  lemma {:induction false} RunsKeepEveryClassChar(cls: CharClass, s: string)
    ensures Concat(Runs(cls, s)) == Keep(cls, s)
    decreases |s|
  {
    if s != [] {
      if !cls.Has(s[0]) {
        RunsKeepEveryClassChar(cls, s[1..]);
      } else {
        var n := RunLength(cls, s);
        RunsKeepEveryClassChar(cls, s[n..]);
        KeepRun(cls, s);
        var rest := Runs(cls, s[n..]);
        assert ([s[..n]] + rest)[1..] == rest;
      }
    }
  }

  // ---------------------------------------------------------------------
  // tokenize

  /** `default_stopwords`. */
  const DefaultStopwords: set<string> := {"and", "of", "in", "the", "for", "a", "on", "to", "with", "an"}

  /** `str.lower` on one character. */
  function LowerChar(c: char): (r: char)
    ensures !('A' <= r <= 'Z')
    ensures 'A' <= c <= 'Z' ==> r as int == c as int + 32
    ensures !('A' <= c <= 'Z') ==> r == c
  {
    if 'A' <= c <= 'Z' then (c as int + 32) as char else c
  }

  /** `string.lower()`. */
  function Lower(s: string): (r: string)
    ensures |r| == |s|
    ensures forall i :: 0 <= i < |s| ==> r[i] == LowerChar(s[i])
  {
    if s == [] then [] else [LowerChar(s[0])] + Lower(s[1..])
  }

  /** A lowercase string: no capital letter in it. */
  predicate IsLower(s: string)
  {
    forall i :: 0 <= i < |s| ==> !('A' <= s[i] <= 'Z')
  }

  /** Lowercase text is its own lowercase. */
  lemma LowerOfLower(s: string)
    requires IsLower(s)
    ensures Lower(s) == s
  {
  }

  /** The tokens that are not stopwords, in order. */
  function DropStopwords(tokens: seq<string>, stopwords: set<string>): (r: seq<string>)
    ensures forall t :: t in r <==> t in tokens && t !in stopwords
    ensures |r| <= |tokens|
  {
    if tokens == [] then []
    else (if tokens[0] in stopwords then [] else [tokens[0]]) + DropStopwords(tokens[1..], stopwords)
  }

  /** Dropping stopwords treats each token on its own. */
  lemma {:induction false} DropStopwordsConcat(a: seq<string>, b: seq<string>, stopwords: set<string>)
    ensures DropStopwords(a + b, stopwords) == DropStopwords(a, stopwords) + DropStopwords(b, stopwords)
  {
    if a == [] {
      assert a + b == b;
    } else {
      assert (a + b)[0] == a[0] && (a + b)[1..] == a[1..] + b;
      DropStopwordsConcat(a[1..], b, stopwords);
    }
  }

  /** `tokenize(string, stopwords)`: the maximal word runs of the lowercased
    * string, without the stopwords. */
  function Tokenize(s: string, stopwords: set<string>): (r: seq<string>)
    ensures forall t :: t in r ==> t !in stopwords
    ensures forall t :: t in r ==> t != [] && IsLower(t) && forall c :: c in t ==> Word.Has(c)
    ensures forall t :: t in r <==> t in Runs(Word, Lower(s)) && t !in stopwords
  {
    var runs := Runs(Word, Lower(s));
    RunsOfLower(Lower(s));
    DropStopwords(runs, stopwords)
  }

  /** Every run of a lowercase string is lowercase. */
  lemma {:induction false} RunsOfLower(s: string)
    requires IsLower(s)
    ensures forall t :: t in Runs(Word, s) ==> IsLower(t)
    decreases |s|
  {
    if s != [] {
      var n := if Word.Has(s[0]) then RunLength(Word, s) else 1;
      assert IsLower(s[n..]) by {
        forall i | 0 <= i < |s[n..]| ensures !('A' <= s[n..][i] <= 'Z') {
          assert s[n..][i] == s[n + i];
        }
      }
      RunsOfLower(s[n..]);
      assert IsLower(s[..n]);
    }
  }

  /** Case does not matter to `tokenize`. */
  lemma TokenizeIgnoresCase(s: string, stopwords: set<string>)
    ensures Tokenize(Lower(s), stopwords) == Tokenize(s, stopwords)
  {
    LowerOfLower(Lower(s));
  }

  /** Lowering keeps the class of every character, and leaves a
    * character outside the class as it is. */
  lemma LowerCharClass(c: char)
    ensures Word.Has(LowerChar(c)) <==> Word.Has(c)
    ensures !Word.Has(c) ==> LowerChar(c) == c
  {
  }

  /** Lowering works character by character. */
  lemma {:induction false} LowerConcat(a: string, b: string)
    ensures Lower(a + b) == Lower(a) + Lower(b)
  {
    if a == [] {
      assert a + b == b;
    } else {
      assert (a + b)[0] == a[0] && (a + b)[1..] == a[1..] + b;
      LowerConcat(a[1..], b);
      Assoc([LowerChar(a[0])], Lower(a[1..]), Lower(b));
    }
  }

  /** A separator survives lowering. */
  lemma LowerSplit(a: string, c: char, b: string)
    requires !Word.Has(c)
    ensures Lower(a + [c] + b) == Lower(a) + [c] + Lower(b)
  {
    LowerConcat(a + [c], b);
    LowerConcat(a, [c]);
    LowerCharClass(c);
    assert Lower([c]) == [c];
  }

  /** A character that is not a word character splits the tokens: those
    * before it come first, in order, then those after it. No token spans
    * it, and none is lost or repeated. */
  lemma TokenizeSplit(a: string, c: char, b: string, stopwords: set<string>)
    requires !Word.Has(c)
    ensures Tokenize(a + [c] + b, stopwords) == Tokenize(a, stopwords) + Tokenize(b, stopwords)
  {
    LowerSplit(a, c, b);
    RunsSplit(Word, Lower(a), c, Lower(b));
    DropStopwordsConcat(Runs(Word, Lower(a)), Runs(Word, Lower(b)), stopwords);
  }

  /** A string of word characters is one token, lowercased, unless that is
    * a stopword. */
  lemma TokenizeWord(t: string, stopwords: set<string>)
    requires t != [] && forall i :: 0 <= i < |t| ==> Word.Has(t[i])
    ensures Tokenize(t, stopwords) == if Lower(t) in stopwords then [] else [Lower(t)]
  {
    var l := Lower(t);
    forall i | 0 <= i < |l| ensures Word.Has(l[i]) {
      LowerCharClass(t[i]);
    }
    RunsOfWhole(Word, l);
    DropStopwordsSingle(l, stopwords);
  }

  lemma DropStopwordsSingle(t: string, stopwords: set<string>)
    ensures DropStopwords([t], stopwords) == if t in stopwords then [] else [t]
  {
    assert [t][1..] == [];
  }

  /** A string without word characters has no token. */
  lemma TokenizeGap(s: string, stopwords: set<string>)
    requires forall i :: 0 <= i < |s| ==> !Word.Has(s[i])
    ensures Tokenize(s, stopwords) == []
  {
    var l := Lower(s);
    forall i | 0 <= i < |l| ensures !Word.Has(l[i]) {
      LowerCharClass(s[i]);
    }
    RunsOfGap(Word, l);
  }

  /** With the default stopwords, an article is dropped whatever its case:
    * `tokenize('The')` is empty. */
  lemma TokenizeDefault()
    ensures Tokenize("The", DefaultStopwords) == []
  {
    var the := "The";
    assert Word.Has(the[0]) && Word.Has(the[1]) && Word.Has(the[2]);
    TokenizeWord(the, DefaultStopwords);
    LowerThree(the);
    assert "the" in DefaultStopwords;
  }

  lemma LowerThree(s: string)
    requires |s| == 3
    ensures Lower(s) == [LowerChar(s[0]), LowerChar(s[1]), LowerChar(s[2])]
  {
  }


  /** Lowercase words separated by single spaces. */
  function Unwords(words: seq<string>): string
  {
    if words == [] then []
    else if |words| == 1 then words[0]
    else words[0] + " " + Unwords(words[1..])
  }

  /** Tokenising lowercase words that are not stopwords, joined by spaces,
    * gives the words back. */
  lemma {:induction false} TokenizeUnwords(words: seq<string>, stopwords: set<string>)
    requires forall k :: 0 <= k < |words| ==> words[k] != [] && IsLower(words[k]) && words[k] !in stopwords
    requires forall k, i :: 0 <= k < |words| && 0 <= i < |words[k]| ==> Word.Has(words[k][i])
    ensures Tokenize(Unwords(words), stopwords) == words
  {
    var s := Unwords(words);
    UnwordsLower(words);
    LowerOfLower(s);
    RunsOfUnwords(words);
    DropNoStopwords(words, stopwords);
  }

  lemma {:induction false} UnwordsLower(words: seq<string>)
    requires forall k :: 0 <= k < |words| ==> IsLower(words[k])
    ensures IsLower(Unwords(words))
  {
    if |words| > 1 {
      UnwordsLower(words[1..]);
      var rest := Unwords(words[1..]);
      var s := words[0] + " " + rest;
      forall i | 0 <= i < |s| ensures !('A' <= s[i] <= 'Z') {
        if i < |words[0]| {
          assert s[i] == words[0][i];
        } else if i > |words[0]| {
          assert s[i] == rest[i - |words[0]| - 1];
        }
      }
    }
  }

  lemma {:induction false} RunsOfUnwords(words: seq<string>)
    requires forall k :: 0 <= k < |words| ==> words[k] != []
    requires forall k, i :: 0 <= k < |words| && 0 <= i < |words[k]| ==> Word.Has(words[k][i])
    ensures Runs(Word, Unwords(words)) == words
  {
    if words == [] {
    } else if |words| == 1 {
      RunsOfWhole(Word, words[0]);
    } else {
      RunsOfWhole(Word, words[0]);
      RunsOfUnwords(words[1..]);
      RunsSplit(Word, words[0], ' ', Unwords(words[1..]));
      assert words[0] + " " + Unwords(words[1..]) == words[0] + [' '] + Unwords(words[1..]);
      assert [words[0]] + words[1..] == words;
    }
  }

  lemma {:induction false} DropNoStopwords(words: seq<string>, stopwords: set<string>)
    requires forall k :: 0 <= k < |words| ==> words[k] !in stopwords
    ensures DropStopwords(words, stopwords) == words
  {
    if words != [] {
      DropNoStopwords(words[1..], stopwords);
      assert [words[0]] + words[1..] == words;
    }
  }

  // ---------------------------------------------------------------------
  // TextFile.tokens and TextFile.token_set

  /** `TextFile.tokens` over the file's text: the maximal runs of
    * `[-0-9A-Za-z_]`, in order and with their case kept. */
  function Tokens(text: string): (r: seq<string>)
    ensures forall t :: t in r ==> t != [] && forall c :: c in t ==> TokenChar.Has(c)
  {
    Runs(TokenChar, text)
  }

  /** `TextFile.token_set`: the distinct tokens. */
  function TokenSet(text: string): (r: set<string>)
    ensures forall t :: t in r <==> t in Tokens(text)
  {
    set t | t in Tokens(text)
  }

  /** Text split at a space has the tokens of both sides. */
  lemma TokenSetSplit(a: string, b: string)
    ensures TokenSet(a + " " + b) == TokenSet(a) + TokenSet(b)
  {
    RunsSplit(TokenChar, a, ' ', b);
    assert a + " " + b == a + [' '] + b;
  }

  /** Without hyphens the two rules agree: they differ only on `-`, which
    * `tokens` keeps inside a token and `tokenize` splits at. */
  lemma {:induction false} RulesAgreeWithoutHyphen(s: string)
    requires '-' !in s
    ensures Runs(TokenChar, s) == Runs(Word, s)
    decreases |s|
  {
    if s != [] {
      assert s[0] in s;
      assert forall i :: 0 <= i < |s| ==> s[i] in s;
      if Word.Has(s[0]) {
        RunLengthAgree(s);
        var n := RunLength(Word, s);
        assert '-' !in s[n..] by {
          forall i | 0 <= i < |s[n..]| ensures s[n..][i] != '-' {
            assert s[n..][i] == s[n + i];
          }
        }
        RulesAgreeWithoutHyphen(s[n..]);
      } else {
        assert '-' !in s[1..] by {
          forall i | 0 <= i < |s[1..]| ensures s[1..][i] != '-' {
            assert s[1..][i] == s[1 + i];
          }
        }
        RulesAgreeWithoutHyphen(s[1..]);
      }
    }
  }

  lemma {:induction false} RunLengthAgree(s: string)
    requires '-' !in s
    ensures RunLength(TokenChar, s) == RunLength(Word, s)
  {
    if s != [] {
      assert s[0] in s;
      assert '-' !in s[1..] by {
        forall i | 0 <= i < |s[1..]| ensures s[1..][i] != '-' {
          assert s[1..][i] == s[1 + i];
        }
      }
      RunLengthAgree(s[1..]);
    }
  }
}
