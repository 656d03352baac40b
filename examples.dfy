/**
 * The segmenter on texts of a fixed shape built from arbitrary words and
 * phrases: two sentences, a comma list, a lone sentence, an abbreviation,
 * a parenthesised group.
 */
module Cases {
  import opened Text
  import opened Sentences

  /** A word: not empty, and free of white space, sentence punctuation, commas and parentheses. */
  predicate Word(w: string) {
    w != [] &&
    forall i :: 0 <= i < |w| ==>
      !IsSpace(w[i]) && !IsTerminal(w[i]) && w[i] != ',' && w[i] != '(' && w[i] != ')'
  }

  /** A phrase: cleaned text that is not empty and holds no sentence punctuation. */
  ghost predicate Phrase(p: string) {
    p != [] && Normal(p) && Unstopped(p)
  }

  /** A word is a phrase. */
  lemma WordIsPhrase(w: string)
    requires Word(w)
    ensures Phrase(w)
  {
    SpacelessCollapsed(w);
  }

  /** A phrase, one space and a word make a longer phrase ("Hello" and "world"). */
  lemma PhraseWord(p: string, w: string)
    requires Phrase(p) && Word(w)
    ensures Phrase(p + " " + w)
  {
    var t := p + " " + w;
    CollapsedJoin(p, " ");
    SpacelessCollapsed(w);
    CollapsedJoin(p + " ", w);
    assert Unstopped(" ") && Unstopped(w);
    UnstoppedJoin(p, " ");
    UnstoppedJoin(p + " ", w);
    assert t[0] == p[0] && t[|t| - 1] == w[|w| - 1];
  }

  /** A phrase followed by one mark that is not white space is cleaned text. */
  lemma PhraseThen(p: string, c: char)
    requires Phrase(p) && !IsSpace(c)
    ensures Normal(p + [c]) && (p + [c])[0] == p[0]
  {
    SpacelessCollapsed([c]);
    CollapsedJoin(p, [c]);
  }

  /** A word followed by one mark that is not white space is trimmed and collapsed. */
  lemma WordThen(w: string, c: char)
    requires Word(w) && !IsSpace(c)
    ensures Normal(w + [c]) && (w + [c])[0] == w[0]
  {
    forall i | 0 <= i < |w + [c]|
      ensures !IsSpace((w + [c])[i])
    {
      if i < |w| {
        assert (w + [c])[i] == w[i];
      }
    }
    SpacelessCollapsed(w + [c]);
  }

  lemma EmptyTextHasNoSentences()
    ensures SplitIntoSentences("") == []
  {
  }

  lemma TwoSentencesNormal(u: string, v: string, c: char)
    requires Phrase(u) && Phrase(v) && IsTerminal(c)
    ensures Normal(u + ". " + v + [c])
  {
    var m, b := u + ". ", v + [c];
    assert m + b == u + ". " + v + [c];
    PhraseThen(u, '.');
    PhraseThen(v, c);
    CollapsedJoin(u + ".", " ");
    assert u + "." + " " == m;
    CollapsedJoin(m, b);
    assert (m + b)[0] == u[0];
  }

  lemma TwoSentencesScan(u: string, v: string, c: char)
    requires Phrase(u) && Phrase(v) && IsTerminal(c)
    ensures FindAll(u + ". " + v + [c], 0) == [u + ". ", v + [c]]
  {
    var m, b := u + ". ", v + [c];
    assert m + b == u + ". " + v + [c];
    SentenceMatch(u, ".", " ");
    assert u + "." + " " == m;
    SentenceMatch(v, [c], []);
    assert v + [c] + [] == b;
    assert b + [] == b;
    MatchAtAppend(m, b);
    FindAllFirst(m, b);
    FindAllFirst(b, []);
    assert FindAll([], 0) == [];
  }

  /** A match with its trailing space and a last match, trimmed. */
  lemma TrimTwo(p: string, m: string, q: string)
    requires Trimmed(p) && p != [] && Trimmed(q) && m == p + " "
    ensures TrimEach([m, q]) == [p, q]
  {
    TrimEachTwo(m, q);
    TrimOneSpace(p);
    TrimmedFixed(q);
  }

  /** Trimming two matches. */
  lemma TrimEachTwo(a: string, b: string)
    ensures TrimEach([a, b]) == [Trim(a), Trim(b)]
  {
    var r := TrimEach([a, b]);
    assert |r| == 2 && r[0] == Trim(a) && r[1] == Trim(b);
    ListOfTwo(r, Trim(a), Trim(b));
  }

  /** Closing two pieces. */
  lemma TerminateTwo(a: string, b: string)
    ensures Terminate([a, b]) == [Trim(a) + ".", Trim(b) + "."]
  {
    var r := Terminate([a, b]);
    assert |r| == 2 && r[0] == Trim(a) + "." && r[1] == Trim(b) + ".";
    ListOfTwo(r, Trim(a) + ".", Trim(b) + ".");
  }

  /**
   * Two punctuation matches ("Hello world. How are you?"): each becomes a
   * sentence, trimmed; spaces inside a sentence do not split it.
   */
  lemma TwoSentences(u: string, v: string, c: char)
    requires Phrase(u) && Phrase(v) && IsTerminal(c)
    ensures SplitIntoSentences(u + ". " + v + [c]) == [u + ".", v + [c]]
  {
    TwoSentencesFound(u, v, c);
    PhraseThen(u, '.');
    PhraseThen(v, c);
    assert u + "." + " " == u + ". ";
    TrimTwo(u + ".", u + ". ", v + [c]);
  }

  /** The sentences of "u. v" + c are its two matches, trimmed. */
  lemma TwoSentencesFound(u: string, v: string, c: char)
    requires Phrase(u) && Phrase(v) && IsTerminal(c)
    ensures SplitIntoSentences(u + ". " + v + [c]) == TrimEach([u + ". ", v + [c]])
  {
    var t := u + ". " + v + [c];
    TwoSentencesNormal(u, v, c);
    NormalFixed(t);
    TwoSentencesScan(u, v, c);
    PrimaryCount(t);
  }

  /** The text of the two-sentence case written out. */
  lemma HelloWorld(t: string)
    requires t == "Hello world. How are you?"
    ensures SplitIntoSentences(t) == ["Hello world.", "How are you?"]
  {
    HelloWorldPhrase();
    HowAreYouPhrase();
    HelloWorldParts(t);
    TwoSentences("Hello world", "How are you", '?');
  }

  /** The text and its sentences, taken apart into the two phrases. */
  lemma HelloWorldParts(t: string)
    requires t == "Hello world. How are you?"
    ensures "Hello world" + ". " + "How are you" + ['?'] == t
    ensures "Hello world" + "." == "Hello world." && "How are you" + ['?'] == "How are you?"
  {
    assert "Hello world" + ". " == "Hello world. ";
    assert "Hello world. " + "How are you" == "Hello world. How are you";
  }

  lemma HelloWorldPhrase()
    ensures Phrase("Hello world")
  {
    HelloWorldWords();
    WordIsPhrase("Hello");
    PhraseWord("Hello", "world");
  }

  lemma HelloWorldWords()
    ensures Word("Hello") && Word("world") && "Hello" + " " + "world" == "Hello world"
  {
  }

  lemma HowAreYouPhrase()
    ensures Phrase("How are you")
  {
    HowAreYouWords();
    WordIsPhrase("How");
    PhraseWord("How", "are");
    PhraseWord("How are", "you");
  }

  lemma HowAreYouWords()
    ensures Word("How") && Word("are") && Word("you")
    ensures "How" + " " + "are" == "How are" && "How are" + " " + "you" == "How are you"
  {
  }

  lemma CommaListNormal(a: string, b: string, c: string)
    requires Word(a) && Word(b) && Word(c)
    ensures Normal(a + ", " + b + ", " + c)
  {
    var t := a + ", " + b + ", " + c;
    SpacelessCollapsed(a);
    SpacelessCollapsed(b);
    SpacelessCollapsed(c);
    CollapsedJoin(a, ", ");
    CollapsedJoin(a + ", ", b);
    CollapsedJoin(a + ", " + b, ", ");
    CollapsedJoin(a + ", " + b + ", ", c);
    assert t[0] == a[0] && t[|t| - 1] == c[|c| - 1];
  }

  /** Text without sentence punctuation. */
  predicate Unstopped(s: string) {
    forall i :: 0 <= i < |s| ==> !IsTerminal(s[i])
  }

  /** Joining two texts without sentence punctuation gives one. */
  lemma UnstoppedJoin(a: string, b: string)
    requires Unstopped(a) && Unstopped(b)
    ensures Unstopped(a + b)
  {
    forall i | 0 <= i < |a + b|
      ensures !IsTerminal((a + b)[i])
    {
      if i < |a| {
        assert (a + b)[i] == a[i];
      } else {
        assert (a + b)[i] == b[i - |a|];
      }
    }
  }

  lemma CommaListNoMatch(a: string, b: string, c: string)
    requires Word(a) && Word(b) && Word(c)
    ensures FindAll(a + ", " + b + ", " + c, 0) == []
  {
    var t := a + ", " + b + ", " + c;
    assert Unstopped(", ");
    assert Unstopped(a) && Unstopped(b) && Unstopped(c);
    UnstoppedJoin(a, ", ");
    UnstoppedJoin(a + ", ", b);
    UnstoppedJoin(a + ", " + b, ", ");
    UnstoppedJoin(a + ", " + b + ", ", c);
    NoStopNoMatch(t, 0);
  }

  /** A word behind a space holds no comma and no parenthesis. */
  lemma SpacedWord(w: string)
    requires Word(w)
    ensures ',' !in " " + w && ')' !in " " + w
  {
    assert forall i :: 1 <= i < |" " + w| ==> (" " + w)[i] == w[i - 1];
  }

  lemma CommaListPieces(a: string, b: string, c: string)
    requires Word(a) && Word(b) && Word(c)
    ensures CommaSplit(a + ", " + b + ", " + c) == [a, " " + b, " " + c]
  {
    var b', c' := " " + b, " " + c;
    var bc := b' + "," + c';
    assert a + "," + bc == a + ", " + b + ", " + c;
    SpacedWord(b);
    SpacedWord(c);
    assert ',' !in a by {
      assert forall i :: 0 <= i < |a| ==> a[i] != ',';
    }
    assert ')' !in bc by {
      assert forall i :: 0 <= i < |bc| ==> bc[i] == ',' || (i < |b'| && bc[i] == b'[i]) || (i > |b'| && bc[i] == c'[i - |b'| - 1]);
    }
    CommaSplitCons(a, bc);
    CommaSplitCons(b', c');
    CommaSplitNone(c');
  }

  /** Closing three pieces. */
  lemma TerminateThree(a: string, b: string, c: string)
    ensures Terminate([a, b, c]) == [Trim(a) + ".", Trim(b) + ".", Trim(c) + "."]
  {
    var r := Terminate([a, b, c]);
    assert |r| == 3 && r[0] == Trim(a) + "." && r[1] == Trim(b) + "." && r[2] == Trim(c) + ".";
    ListOfThree(r, Trim(a) + ".", Trim(b) + ".", Trim(c) + ".");
  }

  /** Three strings listed in order, stated apart so that the list equality is checked without the text functions in view. */
  lemma ListOfThree(r: seq<string>, x: string, y: string, z: string)
    requires |r| == 3 && r[0] == x && r[1] == y && r[2] == z
    ensures r == [x, y, z]
  {
  }

  /** The comma pieces, trimmed and closed. */
  lemma CommaListClosed(a: string, b: string, c: string)
    requires Trimmed(a) && Trimmed(b) && Trimmed(c) && b != [] && c != []
    ensures Terminate([a, " " + b, " " + c]) == [a + ".", b + ".", c + "."]
  {
    TerminateThree(a, " " + b, " " + c);
    TrimmedFixed(a);
    TrimOneSpace(b);
    TrimOneSpace(c);
  }

  /** No terminal punctuation ("red, green, blue"): the commas split, and each piece is trimmed and closed with ".". */
  lemma CommaList(a: string, b: string, c: string)
    requires Word(a) && Word(b) && Word(c)
    ensures SplitIntoSentences(a + ", " + b + ", " + c) == [a + ".", b + ".", c + "."]
  {
    var t := a + ", " + b + ", " + c;
    CommaListNormal(a, b, c);
    NormalFixed(t);
    CommaListNoMatch(a, b, c);
    CommaListPieces(a, b, c);
    CommaListClosed(a, b, c);
  }

  /** One match is not enough ("Hi."): the fallback closes the sentence a second time. */
  lemma OneSentenceGetsSecondStop(w: string)
    requires Word(w)
    ensures SplitIntoSentences(w + ".") == [w + ".."]
  {
    WordThen(w, '.');
    SentenceMatch(w, ".", []);
    assert w + "." + [] == w + ".";
    assert ',' !in w + "." by {
      assert forall i :: 0 <= i < |w + "."| ==> (w + ".")[i] == '.' || (w + ".")[i] == w[i];
    }
    LoneSentenceIsClosedTwice(w + ".");
    assert w + "." + "." == w + "..";
  }

  lemma AbbreviationNormal(x: string, y: string, z: string)
    requires Word(x) && Word(y) && Word(z)
    ensures Normal(x + "." + y + ". " + z + ".")
  {
    var m := y + ". " + z + ".";
    var t := x + "." + m;
    assert t == x + "." + y + ". " + z + ".";
    WordThen(x, '.');
    WordIsPhrase(y);
    WordIsPhrase(z);
    TwoSentencesNormal(y, z, '.');
    assert m[0] == y[0];
    CollapsedJoin(x + ".", m);
    assert t[0] == x[0];
  }

  lemma AbbreviationScan(x: string, y: string, z: string)
    requires Word(x) && Word(y) && Word(z)
    ensures FindAll(x + "." + y + ". " + z + ".", 0) == FindAll(y + ". " + z + ".", 0)
  {
    var m := y + ". " + z + ".";
    assert x + "." + y + ". " + z + "." == x + "." + m;
    assert m[0] == y[0];
    StopInsideWord(x, m);
  }

  /** A stop followed directly by a word character ends no match: the scan resumes just after it. */
  lemma StopInsideWord(x: string, m: string)
    requires Word(x) && m != [] && !IsSpace(m[0]) && !IsTerminal(m[0])
    ensures FindAll(x + "." + m, 0) == FindAll(m, 0)
  {
    var t := x + "." + m;
    StopAfterWord(x, m, t);
    InnerStopSkipped(t, 0, |x|);
    FindAllShift(x + ".", m, 0);
    assert |x + "."| + 0 == |x| + 1;
  }

  /** In "x." followed by a word character, the only stop is the one after `x`. */
  lemma StopAfterWord(x: string, m: string, t: string)
    requires Word(x) && m != [] && !IsSpace(m[0]) && !IsTerminal(m[0])
    requires t == x + "." + m
    ensures |x| + 1 < |t| && forall i :: 0 <= i < |x| ==> !IsTerminal(t[i])
    ensures IsTerminal(t[|x|]) && !IsTerminal(t[|x| + 1]) && !IsSpace(t[|x| + 1])
  {
    assert forall i :: 0 <= i < |x| ==> t[i] == x[i];
    assert t[|x|] == '.' && t[|x| + 1] == m[0];
  }

  /**
   * A match must end at white space or at the end of the text, so "e." in
   * "e.g. Foo." is no match: the scan resumes inside it, the first sentence
   * loses its first word, and "g." and "Foo." are spoken.
   */
  lemma AbbreviationLosesWord(x: string, y: string, z: string)
    requires Word(x) && Word(y) && Word(z)
    ensures SplitIntoSentences(x + "." + y + ". " + z + ".") == [y + ".", z + "."]
  {
    var t := x + "." + y + ". " + z + ".";
    AbbreviationNormal(x, y, z);
    AbbreviationScan(x, y, z);
    WordIsPhrase(y);
    WordIsPhrase(z);
    TwoSentencesScan(y, z, '.');
    NormalFixed(t);
    WordThen(y, '.');
    WordThen(z, '.');
    assert y + "." + " " == y + ". ";
    TrimTwo(y + ".", y + ". ", z + ".");
  }

  /** Text around a word that has no white space has none once the word is put in. */
  lemma AroundWord(pre: string, w: string, post: string)
    requires Word(w)
    requires forall i :: 0 <= i < |pre| ==> !IsSpace(pre[i])
    requires forall i :: 0 <= i < |post| ==> !IsSpace(post[i])
    ensures Collapsed(pre + w + post)
  {
    var s := pre + w + post;
    forall i | 0 <= i < |s|
      ensures !IsSpace(s[i])
    {
      if i < |pre| {
        assert s[i] == pre[i];
      } else if i < |pre| + |w| {
        assert s[i] == w[i - |pre|];
      } else {
        assert s[i] == post[i - |pre| - |w|];
      }
    }
    SpacelessCollapsed(s);
  }

  /** "(u, v), w" is already in normal form. */
  lemma GroupNormal(u: string, v: string, w: string)
    requires Word(u) && Word(v) && Word(w)
    ensures Normal("(" + u + ", " + v + ")" + ", " + w)
  {
    var g1, g2, r := "(" + u + ",", " " + v + ")", " " + w;
    var t := g1 + g2 + "," + r;
    assert t == "(" + u + ", " + v + ")" + ", " + w;
    GroupCollapsed(g1, g2, r, u, v, w);
    assert t[0] == '(' && t[|t| - 1] == w[|w| - 1];
  }

  /** The three parts of "(u, v), w" join without a white-space run. */
  lemma GroupCollapsed(g1: string, g2: string, r: string, u: string, v: string, w: string)
    requires Word(u) && Word(v) && Word(w)
    requires g1 == "(" + u + "," && g2 == " " + v + ")" && r == " " + w
    ensures Collapsed(g1 + g2 + "," + r)
  {
    AroundWord("(", u, ",");
    SpaceBeforeWord(v + ")", v, ")");
    assert " " + (v + ")") == g2;
    CollapsedJoin(g1, g2);
    CollapsedJoin(g1 + g2, ",");
    SpaceBeforeWord(w, w, []);
    CollapsedJoin(g1 + g2 + ",", r);
  }

  /** A space followed by a word and a closing mark has no white-space run. */
  lemma SpaceBeforeWord(x: string, w: string, post: string)
    requires Word(w) && x == w + post
    requires forall i :: 0 <= i < |post| ==> !IsSpace(post[i])
    ensures Collapsed(" " + x) && Collapsed(x) && !IsSpace(x[0])
  {
    AroundWord([], w, post);
    assert [] + w + post == x;
    CollapsedJoin(" ", x);
  }

  /** The pieces of "(u, v), w": the comma inside the group is protected, the one after it separates. */
  lemma GroupPieces(u: string, v: string, w: string)
    requires Word(u) && Word(v) && Word(w)
    ensures CommaSplit("(" + u + ", " + v + ")" + ", " + w) == ["(" + u + ", " + v + ")", " " + w]
  {
    var g, r := "(" + u + ", " + v + ")", " " + w;
    var x := g + ",";
    var t := x + r;
    assert t == "(" + u + ", " + v + ")" + ", " + w;
    var c := |u| + 1;
    assert forall i :: 0 <= i < |t| ==> t[i] == (x + r)[i];
    forall k | 0 <= k < |g|
      ensures !SplitsAt(t, k)
    {
      if k == 0 {
        assert t[k] == '(';
      } else if k < c {
        assert t[k] == u[k - 1];
      } else if k == c {
        assert t[|g| - 1] == ')';
        forall i | c + 1 <= i < |g| - 1
          ensures t[i] != '(' && t[i] != ')'
        {
          if i > c + 1 {
            assert t[i] == v[i - c - 2];
          }
        }
        assert ParenClosesAt(t, c + 1);
        ClosedAheadIsPattern(t, c + 1);
      } else if k == c + 1 {
        assert t[k] == ' ';
      } else if k < |g| - 1 {
        assert t[k] == v[k - c - 2];
      } else {
        assert t[k] == ')';
      }
    }
    PiecesSkip(t, 0, 0, |g|);
    assert ')' !in r by {
      assert forall i :: 1 <= i < |r| ==> r[i] == w[i - 1];
    }
    assert ',' !in r by {
      assert forall i :: 1 <= i < |r| ==> r[i] == w[i - 1];
    }
    NoCloseAhead(r, 0);
    ClosedAheadShift(x, r, 0);
    assert SplitsAt(t, |g|);
    PiecesShift(x, r, 0, 0);
    CommaSplitNone(r);
    assert t[0..|g|] == g;
    assert Pieces(t, 0, |g|) == [g] + Pieces(t, |g| + 1, |g| + 1);
  }

  lemma GroupNoMatch(u: string, v: string, w: string)
    requires Word(u) && Word(v) && Word(w)
    ensures FindAll("(" + u + ", " + v + ")" + ", " + w, 0) == []
  {
    var t := "(" + u + ", " + v + ")" + ", " + w;
    assert Unstopped("(") && Unstopped(", ") && Unstopped(")" + ", ");
    assert Unstopped(u) && Unstopped(v) && Unstopped(w);
    UnstoppedJoin("(", u);
    UnstoppedJoin("(" + u, ", ");
    UnstoppedJoin("(" + u + ", ", v);
    UnstoppedJoin("(" + u + ", " + v, ")" + ", ");
    assert "(" + u + ", " + v + (")" + ", ") == "(" + u + ", " + v + ")" + ", ";
    UnstoppedJoin("(" + u + ", " + v + ")" + ", ", w);
    NoStopNoMatch(t, 0);
  }

  /** The group and the last word, trimmed and closed. */
  lemma GroupClosed(g: string, w: string)
    requires Trimmed(g) && Trimmed(w) && w != []
    ensures Terminate([g, " " + w]) == [g + ".", w + "."]
  {
    TerminateTwo(g, " " + w);
    TrimmedFixed(g);
    TrimOneSpace(w);
  }

  /**
   * A comma followed by ')' before any '(' does not separate ("(a, b), c"):
   * the group stays one sentence, and the comma after it separates.
   */
  lemma CommaInsideParentheses(u: string, v: string, w: string)
    requires Word(u) && Word(v) && Word(w)
    ensures SplitIntoSentences("(" + u + ", " + v + ")" + ", " + w) == ["(" + u + ", " + v + ").", w + "."]
  {
    var g := "(" + u + ", " + v + ")";
    var t := g + ", " + w;
    GroupNormal(u, v, w);
    NormalFixed(t);
    GroupNoMatch(u, v, w);
    GroupPieces(u, v, w);
    assert g[0] == '(' && g[|g| - 1] == ')';
    assert Trimmed(w);
    GroupClosed(g, w);
    assert g + "." == "(" + u + ", " + v + ").";
  }

  /** Two strings listed in order. */
  lemma ListOfTwo(r: seq<string>, x: string, y: string)
    requires |r| == 2 && r[0] == x && r[1] == y
    ensures r == [x, y]
  {
  }
}
