/** identifier.go: splitting an identifier-like string into lower-case
    words, and rendering the words in six case conventions.

    `Parse` is the scanning loop of the source, a state machine over a
    `Parser` (the word being built and the words completed so far).
    `Segment` is an independent description of the same split, given by
    what each rune does to the words of the string before it; the two are
    proved equal, and every other property is proved about `Segment`. */
module Identifier {
  import Unicode
  import Strings

  // ---------------------------------------------------------------------------
  // Rune classes

  /** `isUpper`: an upper- or title-case rune. It always starts a new word.
      Such a rune is itself a letter, and its lower-case form is a letter
      that is no longer cased upper, so the loop writes it into the word it
      has just opened. White space is never upper-case. */
  predicate IsUpper(r: char)
    ensures IsUpper(r) ==> IsLower(r)
    ensures IsUpper(r) ==> IsLower(Unicode.ToLower(r))
    ensures IsUpper(r) ==> !Unicode.IsUpperCase(Unicode.ToLower(r)) && !Unicode.IsTitleCase(Unicode.ToLower(r))
    ensures 'A' <= r <= 'Z' ==> IsUpper(r)
    ensures Unicode.IsSpace(r) ==> !IsUpper(r)
  {
    if Unicode.IsUpperCase(r) || Unicode.IsTitleCase(r) then
      Unicode.LowerOfCasedIsLetter(r);
      true
    else false
  }

  /** `isLower`: a letter or a number. It continues the current word; any
      other rune separates words and is dropped. The ASCII letters and
      digits are word runes; white space and the separators of the kebab,
      snake and natural renderings are not. */
  predicate IsLower(r: char)
    ensures ('a' <= r <= 'z' || 'A' <= r <= 'Z' || '0' <= r <= '9') ==> IsLower(r)
    ensures Unicode.IsSpace(r) ==> !IsLower(r)
    ensures r == '-' || r == '_' ==> !IsLower(r)
  {
    Unicode.IsLetter(r) || Unicode.IsNumber(r)
  }

  /** A word as segmentation produces it: non-empty, letters and numbers
      only, and no upper- or title-case rune. */
  predicate IsWord(w: string) {
    |w| > 0 && forall i :: 0 <= i < |w| ==> IsLower(w[i]) && !IsUpper(w[i])
  }

  predicate AllWords(ws: seq<string>) {
    forall i :: 0 <= i < |ws| ==> IsWord(ws[i])
  }

  /** `s` ends in the middle of a word: its last rune is a letter or number. */
  predicate EndsInWord(s: string) {
    |s| > 0 && IsLower(s[|s| - 1])
  }

  // ---------------------------------------------------------------------------
  // The scanning loop of `parse`

  /** `parser`: the word being built and the words completed so far. */
  datatype Parser = Parser(word: string, words: seq<string>)

  const Start := Parser("", [])

  /** `shift`: close the current word, if there is one. Afterwards no word
      is open, the completed words are kept and at most one is added, a
      word added is never empty, and no rune is lost: run together, the
      completed words hold what they and the open word held before. */
  function Shift(p: Parser): (q: Parser)
    ensures q.word == ""
    ensures |p.words| <= |q.words| <= |p.words| + 1 && q.words[..|p.words|] == p.words
    ensures forall i :: |p.words| <= i < |q.words| ==> |q.words[i]| > 0
    ensures Strings.Join(q.words, "") == Strings.Join(p.words, "") + p.word
  {
    if |p.word| > 0 then
      Strings.JoinTightSnoc(p.words, p.word);
      Parser("", p.words + [p.word])
    else
      Strings.AppendEmpty(Strings.Join(p.words, ""));
      p
  }

  /** `write`: add a rune to the current word. The completed words are
      untouched, and the open word keeps its runes and now ends in `r`, so
      the next shift closes a non-empty word. */
  function Write(p: Parser, r: char): (q: Parser)
    ensures q.words == p.words
    ensures |q.word| == |p.word| + 1 && q.word[..|p.word|] == p.word && q.word[|p.word|] == r
  {
    Parser(p.word + [r], p.words)
  }

  /** One pass of the loop body of `parse`: an upper-case rune is lowered and
      closes the current word; a letter or number is then written; anything
      else closes the current word. So an upper-case rune always leaves a
      new open word holding just its lower-case form, a letter or number
      that is not upper-case extends the open word, any other rune leaves no
      word open, and the completed words are never changed. */
  function Step(p: Parser, r: char): (q: Parser)
    ensures IsUpper(r) ==> q.word == [Unicode.ToLower(r)] && q.words == Shift(p).words
    ensures !IsUpper(r) && IsLower(r) ==> q.word == p.word + [r] && q.words == p.words
    ensures !IsLower(r) ==> q == Shift(p)
    ensures |p.words| <= |q.words| && q.words[..|p.words|] == p.words
  {
    var (r', p') := if IsUpper(r) then (Unicode.ToLower(r), Shift(p)) else (r, p);
    if IsLower(r') then Write(p', r') else Shift(p')
  }

  /** The loop of `parse` over the runes of `s`, from the first to the last.
      Words once completed stay completed: the words before the loop are a
      prefix of the words after it. */
  function Scan(p: Parser, s: string): (q: Parser)
    ensures |p.words| <= |q.words| && q.words[..|p.words|] == p.words
    decreases |s|
  {
    if |s| == 0 then p
    else
      var p' := Step(p, s[0]);
      var q := Scan(p', s[1..]);
      assert q.words[..|p.words|] == q.words[..|p'.words|][..|p.words|];
      q
  }

  /** `parse`: the words of `s`. The loop over the trimmed string, closed
      by a final `shift`, yields exactly the reference segmentation of the
      whole of `s`. */
  function Parse(s: string): (words: seq<string>)
    ensures words == Segment(s)
  {
    var t := Strings.TrimSpace(s);
    ScanFollowsSegment(t);
    TrimSpaceIrrelevant(s);
    if |t| == 0 then [] else Shift(Scan(Start, t)).words
  }

  /** The words `parse` produces are non-empty words of letters and numbers
      without upper-case runes, and together they hold exactly the letters
      and numbers of `s`, in order, upper-case ones lowered. */
  lemma ParseYieldsWords(s: string)
    ensures AllWords(Parse(s))
    ensures Strings.Join(Parse(s), "") == Fold(s)
  {
    SegmentYieldsWords(s);
    SegmentHoldsFold(s);
  }

  // ---------------------------------------------------------------------------
  // Reference definitions

  /** What one more rune does to the words of the text before it, given
      whether that text ends in a word: an upper- or title-case rune opens a
      new word holding its lower-case form; a letter or number extends the
      last word if the text ends in one, and opens a new word otherwise; any
      other rune adds nothing. */
  function Extend(ws: seq<string>, inWord: bool, r: char): seq<string>
    requires inWord ==> |ws| > 0
  {
    if IsUpper(r) then ws + [[Unicode.ToLower(r)]]
    else if !IsLower(r) then ws
    else if inWord then ws[..|ws| - 1] + [ws[|ws| - 1] + [r]]
    else ws + [[r]]
  }

  /** The words of `s`, by what its last rune does to the words of the
      rest. */
  function Segment(s: string): (ws: seq<string>)
    ensures EndsInWord(s) ==> |ws| > 0
    decreases |s|
  {
    if |s| == 0 then []
    else
      var init, r := s[..|s| - 1], s[|s| - 1];
      Extend(Segment(init), EndsInWord(init), r)
  }

  /** The runes of `s` that belong to words, in order, upper- and title-case
      ones lowered. */
  function Fold(s: string): (f: string)
    ensures |f| <= |s|
    decreases |s|
  {
    if |s| == 0 then ""
    else
      var init, r := s[..|s| - 1], s[|s| - 1];
      if IsUpper(r) then Fold(init) + [Unicode.ToLower(r)]
      else if IsLower(r) then Fold(init) + [r]
      else Fold(init)
  }

  /** Every piece of the segmentation is a word. */
  lemma {:induction false} SegmentYieldsWords(s: string)
    ensures AllWords(Segment(s))
    decreases |s|
  {
    if |s| > 0 {
      var init, r := s[..|s| - 1], s[|s| - 1];
      SegmentYieldsWords(init);
      ExtendKeepsWords(Segment(init), EndsInWord(init), r);
    }
  }

  /** One more rune keeps every piece a word. */
  lemma ExtendKeepsWords(ws: seq<string>, inWord: bool, r: char)
    requires AllWords(ws)
    requires inWord ==> |ws| > 0
    ensures AllWords(Extend(ws, inWord, r))
  {
    if IsUpper(r) {
      Unicode.LowerOfCasedIsLetter(r);
      AllWordsSnoc(ws, [Unicode.ToLower(r)]);
    } else if IsLower(r) && inWord {
      AllWordsSplitLast(ws);
      AllWordsSnoc(ws[..|ws| - 1], ws[|ws| - 1] + [r]);
    } else if IsLower(r) {
      AllWordsSnoc(ws, [r]);
    }
  }

  /** Words followed by one more word are words. */
  lemma AllWordsSnoc(ws: seq<string>, w: string)
    requires AllWords(ws) && IsWord(w)
    ensures AllWords(ws + [w])
  {
    forall i | 0 <= i < |ws| + 1 ensures IsWord((ws + [w])[i]) {
      if i < |ws| {
        assert (ws + [w])[i] == ws[i];
      }
    }
  }

  /** The fold holds letters and numbers only, none of them upper-case. */
  lemma {:induction false} FoldHoldsWordRunes(s: string)
    ensures forall i :: 0 <= i < |Fold(s)| ==> IsLower(Fold(s)[i]) && !IsUpper(Fold(s)[i])
    decreases |s|
  {
    if |s| > 0 {
      var init, r := s[..|s| - 1], s[|s| - 1];
      FoldHoldsWordRunes(init);
      if IsUpper(r) {
        Unicode.LowerOfCasedIsLetter(r);
      }
    }
  }

  // ---------------------------------------------------------------------------
  // The loop follows the reference

  /** The reference segmentation of a string with one more rune. */
  lemma SegmentSnoc(s: string, r: char)
    ensures Segment(s + [r]) == Extend(Segment(s), EndsInWord(s), r)
  {
    assert (s + [r])[..|s|] == s;
  }

  /** Words in front are left alone by one more rune. */
  lemma ExtendAfter(x: seq<string>, y: seq<string>, inWord: bool, r: char)
    requires inWord ==> |y| > 0
    ensures Extend(x + y, inWord, r) == x + Extend(y, inWord, r)
  {
    if inWord {
      Strings.DropLastOfAppend(x, y);
    }
  }

  /** Running the loop over one more rune is one more step. */
  lemma {:induction false} ScanSnoc(p: Parser, s: string, r: char)
    ensures Scan(p, s + [r]) == Step(Scan(p, s), r)
    decreases |s|
  {
    if |s| > 0 {
      assert (s + [r])[1..] == s[1..] + [r];
      ScanSnoc(Step(p, s[0]), s[1..], r);
    }
  }

  /** The loop state after `s` matches the reference: when no word is open,
      the completed words are the segmentation of `s` and `s` does not end in
      a word; when a word is open, `s` ends in that word and the completed
      words followed by it are the segmentation of `s`. */
  ghost predicate Tracks(p: Parser, s: string) {
    && (|p.word| == 0 ==> p.words == Segment(s) && !EndsInWord(s))
    && (|p.word| > 0 ==> p.words + [p.word] == Segment(s) && EndsInWord(s))
  }

  /** The loop of `parse`, closed by the final `shift`, computes the
      reference segmentation. */
  lemma {:induction false} ScanFollowsSegment(s: string)
    ensures Tracks(Scan(Start, s), s)
    ensures Shift(Scan(Start, s)).words == Segment(s)
    decreases |s|
  {
    if |s| > 0 {
      var init, r := s[..|s| - 1], s[|s| - 1];
      assert s == init + [r];
      ScanFollowsSegment(init);
      ScanSnoc(Start, init, r);
      var p := Scan(Start, init);
      var ws := Segment(init);
      SegmentSnoc(init, r);
      if IsUpper(r) {
        var lc := Unicode.ToLower(r);
        Unicode.LowerOfCasedIsLetter(r);
        assert Shift(p) == Parser("", ws);
        assert Step(p, r) == Parser([lc], ws);
      } else if IsLower(r) && EndsInWord(init) {
        assert |p.word| > 0;
        assert p.words + [p.word] == ws;
        assert p.words == ws[..|ws| - 1] && p.word == ws[|ws| - 1] by {
          assert (p.words + [p.word])[..|p.words|] == p.words;
        }
        assert Step(p, r) == Parser(p.word + [r], p.words);
        assert p.words + [p.word + [r]] == ws[..|ws| - 1] + [ws[|ws| - 1] + [r]];
      } else if IsLower(r) {
        assert p == Parser("", ws);
        assert Step(p, r) == Parser([r], ws);
      }
    }
  }

  /** Text that does not end in a word does not join its words with what
      follows it: the segmentation of `a + b` is that of `a` followed by that
      of `b`. */
  lemma {:induction false} SegmentConcat(a: string, b: string)
    requires !EndsInWord(a)
    ensures Segment(a + b) == Segment(a) + Segment(b)
    ensures EndsInWord(a + b) == EndsInWord(b)
    decreases |b|
  {
    if |b| == 0 {
      assert a + b == a;
    } else {
      var init, r := b[..|b| - 1], b[|b| - 1];
      SegmentConcat(a, init);
      assert b == init + [r];
      assert a + b == (a + init) + [r];
      assert (a + b)[|a + b| - 1] == r;
      SegmentSnoc(a + init, r);
      SegmentSnoc(init, r);
      ExtendAfter(Segment(a), Segment(init), EndsInWord(init), r);
    }
  }

  /** Runes that are neither letters nor numbers add no words. */
  lemma {:induction false} SegmentSeparators(a: string, t: string)
    requires forall k :: 0 <= k < |t| ==> !IsLower(t[k])
    ensures Segment(a + t) == Segment(a)
    ensures |t| > 0 ==> !EndsInWord(a + t)
    decreases |t|
  {
    if |t| == 0 {
      assert a + t == a;
    } else {
      var init := t[..|t| - 1];
      SegmentSeparators(a, init);
      assert (a + t)[..|a + t| - 1] == a + init;
      assert (a + t)[|a + t| - 1] == t[|t| - 1];
    }
  }

  /** A string of separators only has no words. */
  lemma {:induction false} SeparatorsOnly(t: string)
    requires forall k :: 0 <= k < |t| ==> !IsLower(t[k])
    ensures Segment(t) == []
    ensures !EndsInWord(t)
    decreases |t|
  {
    if |t| > 0 {
      SeparatorsOnly(t[..|t| - 1]);
    }
  }

  /** Leading and trailing white space make no difference to the words. */
  lemma TrimSpaceIrrelevant(s: string)
    ensures Segment(Strings.TrimSpace(s)) == Segment(s)
  {
    var t := Strings.TrimSpace(s);
    var lead, trail := Strings.TrimSpaceParts(s);
    forall k | 0 <= k < |lead| ensures !IsLower(lead[k]) {
      Unicode.SpaceIsNotWordRune(lead[k]);
    }
    forall k | 0 <= k < |trail| ensures !IsLower(trail[k]) {
      Unicode.SpaceIsNotWordRune(trail[k]);
    }
    SeparatorsOnly(lead);
    SegmentConcat(lead, t + trail);
    SegmentSeparators(t, trail);
  }

  // ---------------------------------------------------------------------------
  // What the words hold

  /** The words of `s` hold exactly the runes of `Fold(s)`. */
  lemma {:induction false} SegmentHoldsFold(s: string)
    ensures Strings.Join(Segment(s), "") == Fold(s)
    decreases |s|
  {
    if |s| > 0 {
      var init, r := s[..|s| - 1], s[|s| - 1];
      SegmentHoldsFold(init);
      ExtendHoldsRune(Segment(init), EndsInWord(init), r);
    }
  }

  /** One more rune adds to the words run together exactly what it adds to
      the fold: its lower-case form, itself, or nothing. */
  lemma ExtendHoldsRune(ws: seq<string>, inWord: bool, r: char)
    requires inWord ==> |ws| > 0
    ensures Strings.Join(Extend(ws, inWord, r), "") ==
      Strings.Join(ws, "") + (if IsUpper(r) then [Unicode.ToLower(r)] else if IsLower(r) then [r] else [])
  {
    if IsUpper(r) {
      Strings.JoinTightSnoc(ws, [Unicode.ToLower(r)]);
    } else if IsLower(r) && inWord {
      var n := |ws|;
      var front := ws[..n - 1];
      Strings.FrontAndLast(ws);
      Strings.JoinTightSnoc(front, ws[n - 1]);
      Strings.JoinTightSnoc(front, ws[n - 1] + [r]);
      Strings.AppendAssoc(Strings.Join(front, ""), ws[n - 1], [r]);
    } else if IsLower(r) {
      Strings.JoinTightSnoc(ws, [r]);
    } else {
      Strings.AppendEmpty(Strings.Join(ws, ""));
    }
  }

  /** A string has no words exactly when it has no letters or numbers. */
  lemma NoWordsIffNoWordRunes(s: string)
    ensures |Parse(s)| == 0 <==> forall k :: 0 <= k < |s| ==> !IsLower(s[k])
  {
    if forall k :: 0 <= k < |s| ==> !IsLower(s[k]) {
      SeparatorsOnly(s);
    } else {
      var k :| 0 <= k < |s| && IsLower(s[k]);
      WordRuneMakesWord(s, k);
    }
  }

  /** A letter or number anywhere gives at least one word. */
  lemma WordRuneMakesWord(s: string, k: nat)
    requires k < |s| && IsLower(s[k])
    ensures |Segment(s)| > 0
  {
    var a, b := s[..k + 1], s[k + 1..];
    assert s == a + b;
    assert a[k] == s[k];
    FoldNonEmpty(a, b);
    SegmentHoldsFold(s);
  }

  /** A letter or number leaves a rune in the fold, whatever follows it. */
  lemma {:induction false} FoldNonEmpty(a: string, b: string)
    requires EndsInWord(a)
    ensures |Fold(a + b)| > 0
    decreases |b|
  {
    if |b| == 0 {
      assert a + b == a;
    } else {
      FoldNonEmpty(a, b[..|b| - 1]);
      assert (a + b)[..|a + b| - 1] == a + b[..|b| - 1];
    }
  }

  /** A word on its own is segmented into itself. */
  lemma {:induction false} SegmentOfWord(w: string)
    requires IsWord(w)
    ensures Segment(w) == [w]
    ensures EndsInWord(w)
    decreases |w|
  {
    var init := w[..|w| - 1];
    assert w == init + [w[|w| - 1]];
    SegmentSnoc(init, w[|w| - 1]);
    if |init| > 0 {
      assert IsWord(init) by {
        forall i | 0 <= i < |init| ensures IsLower(init[i]) && !IsUpper(init[i]) {
          assert init[i] == w[i];
        }
      }
      SegmentOfWord(init);
    }
  }

  /** The words of a list without its last one are words, and so is the
      last one. */
  lemma AllWordsSplitLast(ws: seq<string>)
    requires AllWords(ws) && |ws| > 0
    ensures AllWords(ws[..|ws| - 1]) && IsWord(ws[|ws| - 1])
  {
    var front := ws[..|ws| - 1];
    forall i | 0 <= i < |front| ensures IsWord(front[i]) {
      assert front[i] == ws[i];
    }
  }

  /** Segmenting words joined with a separator gives the words back. */
  lemma {:induction false} SegmentJoin(ws: seq<string>, sep: char)
    requires AllWords(ws)
    requires !IsLower(sep)
    ensures Segment(Strings.Join(ws, [sep])) == ws
    decreases |ws|
  {
    var n := |ws|;
    if n == 1 {
      SegmentOfWord(ws[0]);
    } else if n > 1 {
      var front, w := ws[..n - 1], ws[n - 1];
      assert ws == front + [w];
      AllWordsSplitLast(ws);
      SegmentJoin(front, sep);
      var joined := Strings.Join(front, [sep]);
      Strings.JoinSnoc(front, w, [sep]);
      SegmentSeparators(joined, [sep]);
      SegmentOfWord(w);
      SegmentConcat(joined + [sep], w);
    }
  }

  /** Parsing words joined with a separator gives the words back. */
  lemma ParseJoin(ws: seq<string>, sep: char)
    requires AllWords(ws)
    requires !IsLower(sep)
    ensures Parse(Strings.Join(ws, [sep])) == ws
  {
    SegmentJoin(ws, sep);
  }

  /** A word holds none of the separators the renderings use. */
  lemma WordsHoldNoSeparator(ws: seq<string>, sep: char)
    requires AllWords(ws)
    requires !IsLower(sep)
    ensures forall i :: 0 <= i < |ws| ==> sep !in ws[i]
  {
    forall i | 0 <= i < |ws| ensures sep !in ws[i] {
      assert IsWord(ws[i]);
    }
  }

  // ---------------------------------------------------------------------------
  // Renderings

  /** `title`: `s` with its first rune title-cased. It has the length of `s`
      and differs from it at most in the first rune. */
  function Title(s: string): (r: string)
    ensures |r| == |s|
    ensures |s| > 0 ==> r[0] == Unicode.ToTitle(s[0])
    ensures forall i :: 0 < i < |s| ==> r[i] == s[i]
  {
    TitleFrom(s, 0)
  }

  /** The loop of `title` from rune index `i` on: the rune at index 0 is
      title-cased, every later one copied. */
  function TitleFrom(s: string, i: nat): (r: string)
    requires i <= |s|
    ensures |r| == |s| - i
    ensures forall k :: 0 <= k < |r| ==> r[k] == (if i + k == 0 then Unicode.ToTitle(s[0]) else s[i + k])
    decreases |s| - i
  {
    if i == |s| then ""
    else [if i == 0 then Unicode.ToTitle(s[i]) else s[i]] + TitleFrom(s, i + 1)
  }

  /** Each word title-cased. */
  function Titles(ws: seq<string>): (ts: seq<string>)
  {
    seq(|ws|, i requires 0 <= i < |ws| => Title(ws[i]))
  }

  /** Title-casing a list is title-casing its first word and then the
      rest. */
  lemma TitlesCons(ws: seq<string>)
    requires |ws| > 0
    ensures Titles(ws) == [Title(ws[0])] + Titles(ws[1..])
  {
  }

  /** Title-casing keeps the number of words and the length of each. */
  lemma TitlesKeepLengths(ws: seq<string>)
    ensures |Titles(ws)| == |ws|
    ensures forall i :: 0 <= i < |ws| ==> |Titles(ws)[i]| == |ws[i]|
  {
  }

  /** The first word followed by the rest title-cased has the shape of the
      list: every word keeps its length. */
  lemma TitledRestKeepsLengths(ws: seq<string>)
    requires |ws| > 0
    ensures forall i :: 0 <= i < |ws| ==> |([ws[0]] + Titles(ws[1..]))[i]| == |ws[i]|
  {
    var rest := Titles(ws[1..]);
    TitlesKeepLengths(ws[1..]);
    forall i | 0 <= i < |ws| ensures |([ws[0]] + rest)[i]| == |ws[i]| {
      if i > 0 {
        assert ([ws[0]] + rest)[i] == rest[i - 1];
        assert ws[1..][i - 1] == ws[i];
      }
    }
  }

  /** `camel`: the first word as it is, then every other word title-cased,
      with nothing between. So it is the first word followed by the pascal
      rendering of the rest. */
  function Camel(ws: seq<string>): (r: string)
    ensures |ws| == 0 ==> r == ""
    ensures |ws| > 0 ==> r == ws[0] + Pascal(ws[1..])
  {
    if |ws| == 0 then ""
    else
      Strings.JoinTightCons(ws[0], Titles(ws[1..]));
      Strings.Join([ws[0]] + Titles(ws[1..]), "")
  }

  /** The words joined with the one-rune separator `sep`, as the separated
      renderings do. When no word holds the separator, splitting on it gives
      the words back. */
  function Joined(ws: seq<string>, sep: char): (r: string)
    ensures |ws| > 0 && (forall i :: 0 <= i < |ws| ==> sep !in ws[i]) ==> Strings.Split(r, sep) == ws
  {
    Strings.SplitJoinWhenFree(ws, sep);
    Strings.Join(ws, [sep])
  }

  /** `kebab`: the words joined with `-`. When no word holds a `-`,
      splitting on `-` gives the words back. */
  function Kebab(ws: seq<string>): (r: string)
    ensures |ws| > 0 && (forall i :: 0 <= i < |ws| ==> '-' !in ws[i]) ==> Strings.Split(r, '-') == ws
  {
    Joined(ws, '-')
  }

  /** `natural`: the words joined with a space. When no word holds a
      space, splitting on spaces gives the words back. */
  function Natural(ws: seq<string>): (r: string)
    ensures |ws| > 0 && (forall i :: 0 <= i < |ws| ==> ' ' !in ws[i]) ==> Strings.Split(r, ' ') == ws
  {
    Joined(ws, ' ')
  }

  /** `packge`: the words joined with nothing between: the first word
      followed by the package rendering of the rest. */
  function Package(ws: seq<string>): (r: string)
    ensures |ws| == 0 ==> r == ""
    ensures |ws| > 0 ==> r == ws[0] + Package(ws[1..])
  {
    if |ws| == 0 then ""
    else
      Strings.JoinTightCons(ws[0], ws[1..]);
      assert [ws[0]] + ws[1..] == ws;
      Strings.Join(ws, "")
  }

  /** `pascal`: every word title-cased, with nothing between: the first word
      title-cased followed by the pascal rendering of the rest. */
  function Pascal(ws: seq<string>): (r: string)
    ensures |ws| == 0 ==> r == ""
    ensures |ws| > 0 ==> r == Title(ws[0]) + Pascal(ws[1..])
  {
    if |ws| == 0 then ""
    else
      TitlesCons(ws);
      Strings.JoinTightCons(Title(ws[0]), Titles(ws[1..]));
      Strings.Join(Titles(ws), "")
  }

  /** `snake`: the words joined with `_`. When no word holds a `_`,
      splitting on `_` gives the words back. */
  function Snake(ws: seq<string>): (r: string)
    ensures |ws| > 0 && (forall i :: 0 <= i < |ws| ==> '_' !in ws[i]) ==> Strings.Split(r, '_') == ws
  {
    Joined(ws, '_')
  }

  /** Camel and pascal case differ only in the first word: camel case starts
      with it unchanged, pascal case with it title-cased, and after it the two
      are the same. Both are as long as the package rendering. */
  lemma CamelPascalDifferInFirstWord(ws: seq<string>)
    requires |ws| > 0
    ensures |ws[0]| <= |Camel(ws)| == |Pascal(ws)| == |Package(ws)|
    ensures Camel(ws)[..|ws[0]|] == ws[0]
    ensures Pascal(ws)[..|ws[0]|] == Title(ws[0])
    ensures Camel(ws)[|ws[0]|..] == Pascal(ws)[|ws[0]|..]
  {
    var w0, rest := ws[0], Titles(ws[1..]);
    var tail := Strings.Join(rest, "");
    TitlesCons(ws);
    TitledRestKeepsLengths(ws);
    Strings.JoinTightCons(w0, rest);
    Strings.JoinTightCons(Title(w0), rest);
    Strings.SliceAppend(w0, tail);
    Strings.SliceAppend(Title(w0), tail);
    Strings.JoinSameShape([w0] + rest, ws, "");
  }

  /** Words joined with a separator come back both by parsing the result
      again and by splitting it on the separator. */
  lemma JoinedWordsComeBack(ws: seq<string>, sep: char)
    requires AllWords(ws)
    requires !IsLower(sep)
    ensures Parse(Strings.Join(ws, [sep])) == ws
    ensures |ws| > 0 ==> Strings.Split(Strings.Join(ws, [sep]), sep) == ws
  {
    ParseJoin(ws, sep);
    if |ws| > 0 {
      WordsHoldNoSeparator(ws, sep);
      Strings.SplitJoin(ws, sep);
    }
  }

  /** The separator-joined renderings of a list of words give the words back,
      both by parsing them again and by splitting them on their separator;
      camel and pascal case are as long as the package rendering; and no
      words render as empty strings throughout. */
  lemma RenderingsGiveWordsBack(ws: seq<string>)
    requires AllWords(ws)
    ensures Parse(Kebab(ws)) == ws && Parse(Snake(ws)) == ws && Parse(Natural(ws)) == ws
    ensures |ws| > 0 ==>
      && Strings.Split(Kebab(ws), '-') == ws
      && Strings.Split(Snake(ws), '_') == ws
      && Strings.Split(Natural(ws), ' ') == ws
    ensures |Camel(ws)| == |Pascal(ws)| == |Package(ws)|
    ensures |ws| == 0 ==>
      Camel(ws) == Kebab(ws) == Natural(ws) == Package(ws) == Pascal(ws) == Snake(ws) == ""
  {
    KebabGivesWordsBack(ws);
    SnakeGivesWordsBack(ws);
    NaturalGivesWordsBack(ws);
    if |ws| > 0 {
      CamelPascalDifferInFirstWord(ws);
    }
  }

  lemma KebabGivesWordsBack(ws: seq<string>)
    requires AllWords(ws)
    ensures Parse(Kebab(ws)) == ws
    ensures |ws| > 0 ==> Strings.Split(Kebab(ws), '-') == ws
  {
    JoinedWordsComeBack(ws, '-');
  }

  lemma SnakeGivesWordsBack(ws: seq<string>)
    requires AllWords(ws)
    ensures Parse(Snake(ws)) == ws
    ensures |ws| > 0 ==> Strings.Split(Snake(ws), '_') == ws
  {
    JoinedWordsComeBack(ws, '_');
  }

  lemma NaturalGivesWordsBack(ws: seq<string>)
    requires AllWords(ws)
    ensures Parse(Natural(ws)) == ws
    ensures |ws| > 0 ==> Strings.Split(Natural(ws), ' ') == ws
  {
    JoinedWordsComeBack(ws, ' ');
  }

  // ---------------------------------------------------------------------------
  // The identifier

  /** `Identifier`: the source string and its six renderings. */
  datatype Identifier = Identifier(
    camel: string,
    kebab: string,
    natural: string,
    package: string,
    pascal: string,
    snake: string,
    source: string)

  /** `NewIdentifier`: all six renderings come from one segmentation of `s`.
      Parsing the kebab, snake or natural rendering again gives the words of
      `s` back, and so does splitting it on its separator; the package
      rendering is the letters and numbers of `s` with upper-case runes
      lowered; camel and pascal case are as long as it; and a string without
      words renders as empty strings throughout. */
  function NewIdentifier(s: string): (id: Identifier)
    ensures id.source == s
    ensures id.package == Fold(s)
    ensures Parse(id.kebab) == Parse(s)
    ensures Parse(id.snake) == Parse(s)
    ensures Parse(id.natural) == Parse(s)
    ensures |Parse(s)| > 0 ==>
      && Strings.Split(id.kebab, '-') == Parse(s)
      && Strings.Split(id.snake, '_') == Parse(s)
      && Strings.Split(id.natural, ' ') == Parse(s)
    ensures |Parse(s)| > 0 ==>
      && id.camel == Parse(s)[0] + Pascal(Parse(s)[1..])
      && id.pascal == Title(Parse(s)[0]) + Pascal(Parse(s)[1..])
    ensures |id.camel| == |id.pascal| == |id.package|
    ensures |Parse(s)| == 0 ==>
      id.camel == id.kebab == id.natural == id.package == id.pascal == id.snake == ""
  {
    var words := Parse(s);
    ParseYieldsWords(s);
    RenderingsGiveWordsBack(words);
    Identifier(
      Camel(words),
      Kebab(words),
      Natural(words),
      Package(words),
      Pascal(words),
      Snake(words),
      s)
  }

  // ---------------------------------------------------------------------------
  // Examples

  /** An upper-case run is split rune by rune: "UserID" gives the words
      "user", "i" and "d". */
  lemma ParseUserID()
    ensures Parse("UserID") == ["user", "i", "d"]
  {
    SegmentUserID();
  }

  /** An upper- or title-case rune always starts a word of its own. */
  lemma SegmentSnocUpper(s: string, r: char)
    requires IsUpper(r)
    ensures Segment(s + [r]) == Segment(s) + [[Unicode.ToLower(r)]]
  {
    SegmentSnoc(s, r);
  }

  /** "UserI" has the words "user" and "i". */
  lemma SegmentUserI()
    ensures Segment("UserI") == ["user", "i"]
  {
    SegmentUser();
    SegmentSnocUpper("User", 'I');
    assert "User" + ['I'] == "UserI";
  }

  /** "UserID" has the words "user", "i" and "d". */
  lemma SegmentUserID()
    ensures Segment("UserID") == ["user", "i", "d"]
  {
    SegmentUserI();
    SegmentSnocUpper("UserI", 'D');
    assert "UserI" + ['D'] == "UserID";
  }

  /** An upper- or title-case rune followed by letters and numbers that are
      not upper-case is one word: the rune lowered, then the rest as it is. */
  lemma {:induction false} SegmentOfCapitalised(c: char, w: string)
    requires IsUpper(c)
    requires forall i :: 0 <= i < |w| ==> IsLower(w[i]) && !IsUpper(w[i])
    ensures Segment([c] + w) == [[Unicode.ToLower(c)] + w]
    ensures EndsInWord([c] + w)
    decreases |w|
  {
    var lc := Unicode.ToLower(c);
    if |w| == 0 {
      assert [c] + w == [] + [c];
      assert [lc] + w == [lc];
      SegmentSnoc([], c);
    } else {
      var init, r := w[..|w| - 1], w[|w| - 1];
      assert w == init + [r];
      SegmentOfCapitalised(c, init);
      Strings.AppendAssoc([c], init, [r]);
      SegmentSnoc([c] + init, r);
      Strings.AppendAssoc([lc], init, [r]);
    }
  }

  /** "User" is one word. */
  lemma SegmentUser()
    ensures Segment("User") == ["user"]
  {
    SegmentOfCapitalised('U', "ser");
    assert ['U'] + "ser" == "User";
    assert ['u'] + "ser" == "user";
  }

  /** "user_id" has the words "user" and "id". */
  lemma ParseUserUnderscoreId()
    ensures Parse("user_id") == ["user", "id"]
  {
    var ws := ["user", "id"];
    assert AllWords(ws);
    UserIdSnakeJoined();
    JoinedWordsComeBack(ws, '_');
  }

  /** "user" and "id" joined with `_` is "user_id". */
  lemma UserIdSnakeJoined()
    ensures Strings.Join(["user", "id"], "_") == "user_id"
  {
    Strings.JoinPair("user", "id", "_");
    assert "user" + "_" + "id" == "user_id";
  }

  /** The words "user" and "id" in the six conventions. */
  lemma UserIdWordsRendered()
    ensures var ws := ["user", "id"];
      && Camel(ws) == "userId" && Kebab(ws) == "user-id" && Natural(ws) == "user id"
      && Package(ws) == "userid" && Pascal(ws) == "UserId" && Snake(ws) == "user_id"
  {
    UserIdSeparated();
    UserIdRunTogether();
  }

  /** "user" and "id" with a separator between them. */
  lemma UserIdSeparated()
    ensures var ws := ["user", "id"];
      Kebab(ws) == "user-id" && Natural(ws) == "user id" && Snake(ws) == "user_id"
  {
    Strings.JoinPair("user", "id", "_");
    assert "user" + "_" + "id" == "user_id";
    Strings.JoinPair("user", "id", "-");
    assert "user" + "-" + "id" == "user-id";
    Strings.JoinPair("user", "id", " ");
    assert "user" + " " + "id" == "user id";
  }

  /** "user" and "id" run together, as they are and title-cased. */
  lemma UserIdRunTogether()
    ensures var ws := ["user", "id"];
      Camel(ws) == "userId" && Package(ws) == "userid" && Pascal(ws) == "UserId"
  {
    var ws := ["user", "id"];
    Strings.JoinPair("user", "id", "");
    assert "user" + "" + "id" == "userid";
    assert Title("id") == "Id";
    assert Title("user") == "User";
    assert Titles(ws[1..]) == ["Id"];
    assert [ws[0]] + ["Id"] == ["user", "Id"];
    Strings.JoinPair("user", "Id", "");
    assert "user" + "" + "Id" == "userId";
    assert Titles(ws) == ["User", "Id"];
    Strings.JoinPair("User", "Id", "");
    assert "User" + "" + "Id" == "UserId";
  }

  /** "user_id" is rendered as "userId", "user-id", "user id", "userid",
      "UserId" and "user_id". */
  lemma UserIdRenderings()
    ensures var id := NewIdentifier("user_id");
      && id.camel == "userId" && id.kebab == "user-id" && id.natural == "user id"
      && id.package == "userid" && id.pascal == "UserId" && id.snake == "user_id"
  {
    ParseUserUnderscoreId();
    UserIdWordsRendered();
  }
}
