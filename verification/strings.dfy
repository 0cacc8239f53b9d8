/** The parts of Go's `strings` package the library relies on: `Join`,
    `Split` on a one-rune separator, and `TrimSpace`. Strings are sequences
    of runes. The list functions recurse on their LAST element, which is the
    shape every proof about them follows. */
module Strings {
  import Unicode

  /** `strings.Join`: the parts in order, with `sep` between neighbours. The
      result holds every rune of the parts and one separator fewer than
      there are parts. */
  function Join(parts: seq<string>, sep: string): (r: string)
    ensures |parts| > 0 ==> |r| == TotalLength(parts) + (|parts| - 1) * |sep|
    ensures |parts| == 0 ==> r == ""
  {
    if |parts| == 0 then ""
    else if |parts| == 1 then parts[0]
    else Join(parts[..|parts| - 1], sep) + sep + parts[|parts| - 1]
  }

  /** `strings.Split(s, string(c))`: the pieces of `s` between occurrences of
      `c`. There is always at least one piece (`Split("", c)` is `[""]`), no
      piece contains the separator, and there is one piece more than there
      are separators in `s`. */
  function Split(s: string, c: char): (r: seq<string>)
    ensures |r| == Count(s, c) + 1
    ensures forall i :: 0 <= i < |r| ==> c !in r[i]
  {
    if |s| == 0 then [""]
    else
      var init, last := s[..|s| - 1], s[|s| - 1];
      var pieces := Split(init, c);
      if last == c then pieces + [""]
      else
        var n := |pieces|;
        pieces[..n - 1] + [pieces[n - 1] + [last]]
  }

  /** The number of runes in all the parts together. */
  function TotalLength(parts: seq<string>): nat
  {
    if |parts| == 0 then 0
    else TotalLength(parts[..|parts| - 1]) + |parts[|parts| - 1]|
  }

  /** The number of occurrences of `c` in `s`. */
  function Count(s: string, c: char): nat
  {
    if |s| == 0 then 0
    else Count(s[..|s| - 1], c) + (if s[|s| - 1] == c then 1 else 0)
  }

  /** Joining is the inverse of splitting: joining the pieces back with the
      separator gives the original string. */
  lemma {:induction false} JoinSplit(s: string, c: char)
    ensures Join(Split(s, c), [c]) == s
    decreases |s|
  {
    if |s| > 0 {
      var init, last := s[..|s| - 1], s[|s| - 1];
      var pieces := Split(init, c);
      var n := |pieces|;
      JoinSplit(init, c);
      assert s == init + [last];
      if last == c {
        JoinSnoc(pieces, "", [c]);
      } else {
        var r := pieces[..n - 1] + [pieces[n - 1] + [last]];
        assert Split(s, c) == r;
        if n == 1 {
          assert Join(r, [c]) == pieces[0] + [last];
        } else {
          assert r[..n - 1] == pieces[..n - 1];
          assert Join(pieces, [c]) == Join(pieces[..n - 1], [c]) + [c] + pieces[n - 1];
          assert Join(r, [c]) == Join(pieces[..n - 1], [c]) + [c] + (pieces[n - 1] + [last]);
        }
      }
    }
  }

  /** Appending one more part to a non-empty list appends the separator and
      the part to the joined string. */
  lemma JoinSnoc(parts: seq<string>, part: string, sep: string)
    requires |parts| > 0
    ensures Join(parts + [part], sep) == Join(parts, sep) + sep + part
  {
    assert (parts + [part])[..|parts|] == parts;
  }

  /** A string is the concatenation of its pieces around two cut points. */
  lemma CutTwice(s: string, i: int, j: int)
    requires 0 <= i <= j <= |s|
    ensures s == s[..i] + (s[i..j] + s[j..])
  {
  }

  /** A piece found inside a string, with what comes before and after it,
      makes up the string. */
  lemma CutAround(s: string, t: string, i: int)
    requires 0 <= i <= |s| - |t| && t == s[i..i + |t|]
    ensures s == s[..i] + (t + s[i + |t|..])
  {
    CutTwice(s, i, i + |t|);
  }

  /** Nothing in front of a sequence leaves it as it is. */
  lemma EmptyAppend<T>(x: seq<T>)
    ensures [] + x == x
  {
  }

  /** Nothing after a sequence leaves it as it is. */
  lemma AppendEmpty<T>(x: seq<T>)
    ensures x + [] == x
  {
  }

  /** A non-empty sequence is its front followed by its last element. */
  lemma FrontAndLast<T>(x: seq<T>)
    requires |x| > 0
    ensures x[..|x| - 1] + [x[|x| - 1]] == x
  {
  }

  /** The front of a sequence with one more element is the sequence. */
  lemma FrontOfSnoc<T>(x: seq<T>, e: T)
    ensures (x + [e])[..|x|] == x
  {
  }

  /** A prefix of a suffix is a slice. */
  lemma PrefixOfSuffix<T>(x: seq<T>, i: nat, n: nat)
    requires i + n <= |x|
    ensures x[i..][..n] == x[i..i + n]
  {
  }

  /** Concatenation is associative. */
  lemma AppendAssoc<T>(x: seq<T>, y: seq<T>, z: seq<T>)
    ensures x + (y + z) == (x + y) + z
  {
  }

  /** Dropping the last element of `x + y`, for a non-empty `y`, drops it
      from `y`. */
  lemma DropLastOfAppend<T>(x: seq<T>, y: seq<T>)
    requires |y| > 0
    ensures (x + y)[..|x + y| - 1] == x + y[..|y| - 1]
  {
  }

  /** Two parts are joined with one separator between them. */
  lemma JoinPair(a: string, b: string, sep: string)
    ensures Join([a, b], sep) == a + sep + b
  {
    assert [a, b][..1] == [a];
  }

  /** Without a separator, appending one more part to any list appends the
      part to the joined string. */
  lemma JoinTightSnoc(parts: seq<string>, part: string)
    ensures Join(parts + [part], "") == Join(parts, "") + part
  {
    if |parts| == 0 {
      assert parts + [part] == [part];
    } else {
      JoinSnoc(parts, part, "");
    }
  }

  /** Prepending one more part to a non-empty list prepends the part and the
      separator to the joined string. */
  lemma {:induction false} JoinCons(part: string, parts: seq<string>, sep: string)
    requires |parts| > 0
    ensures Join([part] + parts, sep) == part + sep + Join(parts, sep)
    decreases |parts|
  {
    var all := [part] + parts;
    var n := |parts|;
    if n == 1 {
      assert all[..1] == [part];
    } else {
      assert all[..|all| - 1] == [part] + parts[..n - 1];
      assert all[|all| - 1] == parts[n - 1];
      JoinCons(part, parts[..n - 1], sep);
      AppendAssoc(part + sep, Join(parts[..n - 1], sep), sep + parts[n - 1]);
    }
  }

  /** Without a separator, a part in front of a list is simply prepended. */
  lemma JoinTightCons(part: string, parts: seq<string>)
    ensures Join([part] + parts, "") == part + Join(parts, "")
  {
    if |parts| == 0 {
      assert [part] + parts == [part];
      AppendEmpty(part);
    } else {
      JoinCons(part, parts, "");
      AppendEmpty(part);
    }
  }

  /** The two halves of a concatenation come back by slicing at the
      length of the first. */
  lemma SliceAppend<T>(x: seq<T>, y: seq<T>)
    ensures (x + y)[..|x|] == x && (x + y)[|x|..] == y
  {
  }

  /** Joining parts of pairwise equal lengths gives strings of equal length. */
  lemma {:induction false} JoinSameShape(a: seq<string>, b: seq<string>, sep: string)
    requires |a| == |b|
    requires forall i :: 0 <= i < |a| ==> |a[i]| == |b[i]|
    ensures |Join(a, sep)| == |Join(b, sep)|
    decreases |a|
  {
    if |a| > 1 {
      JoinSameShape(a[..|a| - 1], b[..|b| - 1], sep);
    }
  }

  /** Splitting a string that ends with one more non-separator rune extends
      the last piece by that rune. */
  lemma SplitSnocPlain(s: string, ch: char, c: char)
    requires ch != c
    ensures var p := Split(s, c);
      Split(s + [ch], c) == p[..|p| - 1] + [p[|p| - 1] + [ch]]
  {
    assert (s + [ch])[..|s|] == s;
  }

  /** Splitting a string that ends with separator-free text `w` extends the
      last piece by `w`. */
  lemma {:induction false} SplitAppendPlain(s: string, w: string, c: char)
    requires c !in w
    ensures var p := Split(s, c);
      Split(s + w, c) == p[..|p| - 1] + [p[|p| - 1] + w]
    decreases |w|
  {
    var p := Split(s, c);
    var front, piece := p[..|p| - 1], p[|p| - 1];
    if |w| == 0 {
      AppendEmpty(s);
      AppendEmpty(piece);
      FrontAndLast(p);
    } else {
      var w0, last := w[..|w| - 1], w[|w| - 1];
      FrontAndLast(w);
      SplitAppendPlain(s, w0, c);
      SplitSnocPlain(s + w0, last, c);
      AppendAssoc(s, w0, [last]);
      FrontOfSnoc(front, piece + w0);
      AppendAssoc(piece, w0, [last]);
    }
  }

  /** A string without the separator is one piece. */
  lemma SplitWithout(s: string, c: char)
    requires c !in s
    ensures Split(s, c) == [s]
  {
    SplitJoin([s], c);
  }

  /** The round trip of `SplitJoin`, stated for every list of parts. */
  lemma SplitJoinWhenFree(parts: seq<string>, c: char)
    ensures |parts| > 0 && (forall i :: 0 <= i < |parts| ==> c !in parts[i]) ==> Split(Join(parts, [c]), c) == parts
  {
    if |parts| > 0 && (forall i :: 0 <= i < |parts| ==> c !in parts[i]) {
      SplitJoin(parts, c);
    }
  }

  /** Splitting is the inverse of joining: when no part contains the
      separator, splitting the joined string gives the parts back. */
  lemma {:induction false} SplitJoin(parts: seq<string>, c: char)
    requires |parts| > 0
    requires forall i :: 0 <= i < |parts| ==> c !in parts[i]
    ensures Split(Join(parts, [c]), c) == parts
    decreases |parts|
  {
    var n := |parts|;
    var last := parts[n - 1];
    if n == 1 {
      SplitAppendPlain("", last, c);
      EmptyAppend(last);
    } else {
      var init := parts[..n - 1];
      SplitJoin(init, c);
      var joined := Join(init, [c]);
      FrontAndLast(parts);
      JoinSnoc(init, last, [c]);
      FrontOfSnoc(joined, c);
      assert Split(joined + [c], c) == init + [""];
      SplitAppendPlain(joined + [c], last, c);
      FrontOfSnoc(init, "");
      EmptyAppend(last);
    }
  }

  /** Go's `strings.TrimLeftFunc` with `unicode.IsSpace`: the longest suffix of
      `s` that does not start with white space. */
  function TrimLeftSpace(s: string): (r: string)
    ensures |r| <= |s| && r == s[|s| - |r|..]
    ensures forall k :: 0 <= k < |s| - |r| ==> Unicode.IsSpace(s[k])
    ensures |r| > 0 ==> !Unicode.IsSpace(r[0])
  {
    if |s| > 0 && Unicode.IsSpace(s[0]) then TrimLeftSpace(s[1..]) else s
  }

  /** Go's `strings.TrimRightFunc` with `unicode.IsSpace`: the longest prefix of
      `s` that does not end with white space. */
  function TrimRightSpace(s: string): (r: string)
    ensures |r| <= |s| && r == s[..|r|]
    ensures forall k :: |r| <= k < |s| ==> Unicode.IsSpace(s[k])
    ensures |r| > 0 ==> !Unicode.IsSpace(r[|r| - 1])
  {
    if |s| > 0 && Unicode.IsSpace(s[|s| - 1]) then TrimRightSpace(s[..|s| - 1]) else s
  }

  /** `r` is `s[i..i + |r|]` with only white space cut off on either side. */
  ghost predicate TrimmedAt(s: string, r: string, i: int) {
    && 0 <= i <= |s| - |r|
    && r == s[i..i + |r|]
    && (forall k :: 0 <= k < i ==> Unicode.IsSpace(s[k]))
    && (forall k :: i + |r| <= k < |s| ==> Unicode.IsSpace(s[k]))
  }

  /** `strings.TrimSpace`: `s` without its leading and trailing white space.
      Only white space is cut off on either side, the result neither starts
      nor ends with white space, and it is empty exactly when `s` is all
      white space. */
  function TrimSpace(s: string): (r: string)
    ensures exists i :: TrimmedAt(s, r, i)
    ensures |r| > 0 ==> !Unicode.IsSpace(r[0]) && !Unicode.IsSpace(r[|r| - 1])
    ensures |r| == 0 <==> forall k :: 0 <= k < |s| ==> Unicode.IsSpace(s[k])
  {
    var left := TrimLeftSpace(s);
    var r := TrimRightSpace(left);
    TrimmedBothEnds(s, left, r);
    r
  }

  /** Trimming the left end and then the right end cuts off white space
      only, and leaves nothing exactly when there was nothing but white
      space. */
  lemma TrimmedBothEnds(s: string, left: string, r: string)
    requires |left| <= |s| && left == s[|s| - |left|..]
    requires forall k :: 0 <= k < |s| - |left| ==> Unicode.IsSpace(s[k])
    requires |left| > 0 ==> !Unicode.IsSpace(left[0])
    requires |r| <= |left| && r == left[..|r|]
    requires forall k :: |r| <= k < |left| ==> Unicode.IsSpace(left[k])
    requires |r| > 0 ==> !Unicode.IsSpace(r[|r| - 1])
    ensures TrimmedAt(s, r, |s| - |left|)
    ensures |r| > 0 ==> !Unicode.IsSpace(r[0]) && !Unicode.IsSpace(r[|r| - 1])
    ensures |r| == 0 <==> forall k :: 0 <= k < |s| ==> Unicode.IsSpace(s[k])
  {
    var i := |s| - |left|;
    PrefixOfSuffix(s, i, |r|);
    forall k | i + |r| <= k < |s| ensures Unicode.IsSpace(s[k]) {
      assert s[k] == left[k - i];
    }
    if |r| > 0 {
      assert r[0] == left[0] == s[i];
    } else {
      assert |left| == 0;
    }
  }

  /** `s` is its trimmed form with white space before and after it. */
  lemma TrimSpaceParts(s: string) returns (lead: string, trail: string)
    ensures s == lead + (TrimSpace(s) + trail)
    ensures forall k :: 0 <= k < |lead| ==> Unicode.IsSpace(lead[k])
    ensures forall k :: 0 <= k < |trail| ==> Unicode.IsSpace(trail[k])
  {
    var left := TrimLeftSpace(s);
    var t := TrimRightSpace(left);
    lead, trail := CutTrimmed(s, left, t);
  }

  /** The white space the two trims cut off, in front and behind. */
  lemma CutTrimmed(s: string, left: string, r: string) returns (lead: string, trail: string)
    requires |left| <= |s| && left == s[|s| - |left|..]
    requires forall k :: 0 <= k < |s| - |left| ==> Unicode.IsSpace(s[k])
    requires |left| > 0 ==> !Unicode.IsSpace(left[0])
    requires |r| <= |left| && r == left[..|r|]
    requires forall k :: |r| <= k < |left| ==> Unicode.IsSpace(left[k])
    requires |r| > 0 ==> !Unicode.IsSpace(r[|r| - 1])
    ensures s == lead + (r + trail)
    ensures forall k :: 0 <= k < |lead| ==> Unicode.IsSpace(lead[k])
    ensures forall k :: 0 <= k < |trail| ==> Unicode.IsSpace(trail[k])
  {
    TrimmedBothEnds(s, left, r);
    var i := |s| - |left|;
    lead, trail := s[..i], s[i + |r|..];
    CutAround(s, r, i);
    forall k | 0 <= k < |trail| ensures Unicode.IsSpace(trail[k]) {
      assert trail[k] == s[i + |r| + k];
    }
  }
}
