/** imports.go: a map from import paths to Go identifier aliases, where every
    newly added path is given an alias no other path holds.

    The Go type `Imports` is a mutable map and `Add` changes it in place;
    here `Add` is a pure function returning the alias together with the map
    after the call. */
module ImportAliases {
  import Unicode
  import Strings

  /** `Imports`: import paths mapped to their aliases. */
  type Imports = map<string, string>

  datatype Option<T> = None | Some(value: T)

  /** What `Imports.Add` returns, with the map as it is after the call. */
  datatype Added = Added(alias: string, imports: Imports)

  // ---------------------------------------------------------------------------
  // Identifier grammar

  /** `_keywords`: the 25 keywords of Go. */
  const Keywords: set<string> := {
    "break", "case", "chan", "const", "continue", "default", "defer", "else",
    "fallthrough", "for", "func", "go", "goto", "if", "import", "interface",
    "map", "package", "range", "return", "select", "struct", "switch", "type",
    "var"
  }

  /** `isKeyword`: one of the keywords above. Every keyword is two to eleven
      lower-case ASCII letters. */
  predicate IsKeyword(s: string)
    ensures IsKeyword(s) ==> 2 <= |s| <= 11
    ensures IsKeyword(s) ==> forall i :: 0 <= i < |s| ==> 'a' <= s[i] <= 'z'
  {
    s in Keywords
  }

  /** No Go keyword starts with `x`. */
  lemma NoKeywordStartsWithX(s: string)
    requires |s| > 0 && s[0] == 'x'
    ensures !IsKeyword(s)
  {
  }

  /** The runes matched by `[[:digit:][:alpha:]_]`. Go's regular expressions
      read the POSIX classes as ASCII only: the identifier runes are `_` and
      the ASCII runes that are letters or numbers. */
  predicate IsIdentifierChar(c: char)
    ensures IsIdentifierChar(c) <==> c == '_' || (c as int < 128 && (Unicode.IsLetter(c) || Unicode.IsNumber(c)))
  {
    ('0' <= c <= '9') || ('A' <= c <= 'Z') || ('a' <= c <= 'z') || c == '_'
  }

  /** A usable alias name: non-empty, starting with a letter, made of
      identifier runes only, and not a keyword. */
  predicate IsAliasName(a: string) {
    && |a| > 0
    && Unicode.IsLetter(a[0])
    && (forall i :: 0 <= i < |a| ==> IsIdentifierChar(a[i]))
    && !IsKeyword(a)
  }

  /** `invalidIdentifierChar.ReplaceAllString(s, "")`: `s` with every rune
      outside the identifier class removed. The result holds identifier runes
      only, and a string that holds nothing else is left as it is. */
  function RemoveInvalid(s: string): (r: string)
    ensures |r| <= |s|
    ensures forall i :: 0 <= i < |r| ==> IsIdentifierChar(r[i])
    ensures (forall i :: 0 <= i < |s| ==> IsIdentifierChar(s[i])) ==> r == s
    decreases |s|
  {
    if |s| == 0 then ""
    else
      var init, c := s[..|s| - 1], s[|s| - 1];
      assert s == init + [c];
      RemoveInvalid(init) + (if IsIdentifierChar(c) then [c] else [])
  }

  /** Removing invalid runes keeps every identifier rune, as often as it
      occurs, and nothing else. */
  lemma {:induction false} RemoveInvalidKeepsIdentifierRunes(s: string)
    ensures forall c :: IsIdentifierChar(c) ==> multiset(RemoveInvalid(s))[c] == multiset(s)[c]
    ensures forall c :: !IsIdentifierChar(c) ==> multiset(RemoveInvalid(s))[c] == 0
    decreases |s|
  {
    if |s| > 0 {
      var init, c := s[..|s| - 1], s[|s| - 1];
      RemoveInvalidKeepsIdentifierRunes(init);
      assert s == init + [c];
    }
  }

  /** Removing invalid runes works piece by piece. */
  lemma {:induction false} RemoveInvalidConcat(a: string, b: string)
    ensures RemoveInvalid(a + b) == RemoveInvalid(a) + RemoveInvalid(b)
    decreases |b|
  {
    if |b| == 0 {
      assert a + b == a;
    } else {
      var init, c := b[..|b| - 1], b[|b| - 1];
      RemoveInvalidConcat(a, init);
      assert (a + b)[..|a + b| - 1] == a + init;
      assert (a + b)[|a + b| - 1] == c;
    }
  }

  /** Every element with its invalid runes removed. */
  function CleanEach(elems: seq<string>): (r: seq<string>)
    ensures |r| == |elems|
    decreases |elems|
  {
    if |elems| == 0 then []
    else CleanEach(elems[..|elems| - 1]) + [RemoveInvalid(elems[|elems| - 1])]
  }

  /** `newAlias`: the elements run together with every rune outside the
      identifier class removed. */
  function NewAlias(elems: seq<string>): (alias: string)
    ensures forall i :: 0 <= i < |alias| ==> IsIdentifierChar(alias[i])
  {
    RemoveInvalid(Strings.Join(elems, ""))
  }

  /** Cleaning after running the elements together is the same as cleaning
      each element and running the results together. */
  lemma {:induction false} NewAliasCleansEachElement(elems: seq<string>)
    ensures NewAlias(elems) == Strings.Join(CleanEach(elems), "")
    decreases |elems|
  {
    var n := |elems|;
    if n > 0 {
      var front := elems[..n - 1];
      NewAliasCleansEachElement(front);
      assert elems == front + [elems[n - 1]];
      Strings.JoinTightSnoc(front, elems[n - 1]);
      Strings.JoinTightSnoc(CleanEach(front), RemoveInvalid(elems[n - 1]));
      RemoveInvalidConcat(Strings.Join(front, ""), elems[n - 1]);
    }
  }

  /** The alias holds every identifier rune of the elements, as often as
      they hold it, and no other rune. */
  lemma NewAliasKeepsIdentifierRunes(elems: seq<string>)
    ensures var joined := Strings.Join(elems, "");
      forall c :: IsIdentifierChar(c) ==> multiset(NewAlias(elems))[c] == multiset(joined)[c]
    ensures forall c :: !IsIdentifierChar(c) ==> multiset(NewAlias(elems))[c] == 0
  {
    RemoveInvalidKeepsIdentifierRunes(Strings.Join(elems, ""));
  }

  // ---------------------------------------------------------------------------
  // Choosing an alias

  /** `Imports.isValid`: the alias is non-empty, not a keyword, starts with a
      letter, and no path holds it yet. */
  predicate IsValid(imp: Imports, alias: string)
  {
    && |alias| > 0
    && !IsKeyword(alias)
    && Unicode.IsLetter(alias[0])
    && alias !in imp.Values
  }

  /** For a string of identifier runes, being valid is being a usable alias
      name that no path holds. */
  lemma ValidCleanAlias(imp: Imports, a: string)
    requires forall i :: 0 <= i < |a| ==> IsIdentifierChar(a[i])
    ensures IsValid(imp, a) <==> IsAliasName(a) && forall p :: p in imp ==> imp[p] != a
  {
    if a in imp.Values {
      var p :| p in imp && imp[p] == a;
    }
  }

  /** The candidate built from the last `i` path elements: empty from no
      element, and the last element cleaned from one. */
  function Candidate(elems: seq<string>, i: nat): (r: string)
    requires i <= |elems|
    ensures i == 0 ==> r == ""
    ensures i == 1 ==> r == RemoveInvalid(elems[|elems| - 1])
  {
    assert i == 1 ==> elems[|elems| - i..] == [elems[|elems| - 1]];
    NewAlias(elems[|elems| - i..])
  }

  /** The loop of `Add` over `i = start, start + 1, ..., |elems|`: the first
      `i` whose candidate is valid, or `None` when no candidate from `start`
      on is. */
  function FirstValidSuffix(imp: Imports, elems: seq<string>, start: nat): (r: Option<nat>)
    requires 1 <= start <= |elems| + 1
    ensures r.Some? ==> start <= r.value <= |elems| && IsValid(imp, Candidate(elems, r.value))
    ensures r.Some? ==> forall j :: start <= j < r.value ==> !IsValid(imp, Candidate(elems, j))
    ensures r.None? ==> forall j :: start <= j <= |elems| ==> !IsValid(imp, Candidate(elems, j))
    decreases |elems| + 1 - start
  {
    if start > |elems| then None
    else if IsValid(imp, Candidate(elems, start)) then Some(start)
    else
      var r := FirstValidSuffix(imp, elems, start + 1);
      assert forall j :: start <= j <= start ==> !IsValid(imp, Candidate(elems, j));
      r
  }

  /** `n` copies of `x`. */
  function Xs(n: nat): (r: string)
    ensures |r| == n
    ensures forall i :: 0 <= i < n ==> r[i] == 'x'
  {
    seq(n, _ => 'x')
  }

  lemma XsNone(a: string)
    ensures Xs(0) + a == a
  {
  }

  lemma XsShift(n: nat, a: string)
    requires n >= 1
    ensures Xs(n) + a == Xs(n - 1) + (['x'] + a)
  {
    assert Xs(n) + a == (Xs(n - 1) + ['x']) + a;
  }

  predicate StartsWithX(a: string) {
    |a| > 0 && a[0] == 'x'
  }

  /** The aliases in use that are at least as long as `a`. */
  ghost function AliasesAsLong(imp: Imports, a: string): set<string> {
    set v | v in imp.Values && |v| >= |a|
  }

  /** The fallback loop of `Add`: `x` prepended to `alias` until the result is
      valid. The result is valid and is `alias` with some number of `x`s in
      front. The loop ends because a keyword never starts with `x`: after the
      first `x` a candidate can only collide with an alias in use, and each
      further `x` leaves fewer aliases in use that are as long as the
      candidate. */
  function XPrefix(imp: Imports, alias: string): (r: string)
    ensures IsValid(imp, r)
    ensures |r| >= |alias| && r == Xs(|r| - |alias|) + alias
    decreases if StartsWithX(alias) then 0 else 1, AliasesAsLong(imp, alias)
  {
    if IsValid(imp, alias) then
      XsNone(alias);
      alias
    else
      XPrefixProgresses(imp, alias);
      var r := XPrefix(imp, ['x'] + alias);
      XsShift(|r| - |alias|, alias);
      r
  }

  /** Once the candidate starts with `x`, an invalid candidate is an alias in
      use, so prepending another `x` leaves fewer aliases in use that are as
      long as the candidate. */
  lemma XPrefixProgresses(imp: Imports, alias: string)
    requires !IsValid(imp, alias)
    ensures StartsWithX(alias) ==> AliasesAsLong(imp, ['x'] + alias) < AliasesAsLong(imp, alias)
  {
    if StartsWithX(alias) {
      NoKeywordStartsWithX(alias);
      assert alias in AliasesAsLong(imp, alias);
    }
  }

  /** The fallback stops at the first valid candidate: no shorter string of
      `x`s in front of `alias` gives a valid alias. */
  lemma {:induction false} XPrefixIsShortest(imp: Imports, alias: string)
    ensures forall n :: 0 <= n < |XPrefix(imp, alias)| - |alias| ==> !IsValid(imp, Xs(n) + alias)
    decreases if StartsWithX(alias) then 0 else 1, AliasesAsLong(imp, alias)
  {
    if !IsValid(imp, alias) {
      var next := ['x'] + alias;
      XPrefixProgresses(imp, alias);
      XPrefixIsShortest(imp, next);
      var r := XPrefix(imp, alias);
      assert r == XPrefix(imp, next);
      forall n | 0 <= n < |r| - |alias| ensures !IsValid(imp, Xs(n) + alias) {
        if n == 0 {
          XsNone(alias);
        } else {
          XsShift(n, alias);
        }
      }
    }
  }

  /** The fallback keeps a string of identifier runes one of identifier
      runes: it only prepends `x`s. */
  lemma XPrefixKeepsIdentifierChars(imp: Imports, a: string)
    requires forall i :: 0 <= i < |a| ==> IsIdentifierChar(a[i])
    ensures forall i :: 0 <= i < |XPrefix(imp, a)| ==> IsIdentifierChar(XPrefix(imp, a)[i])
  {
    var r := XPrefix(imp, a);
    var n := |r| - |a|;
    forall i | 0 <= i < |r| ensures IsIdentifierChar(r[i]) {
      if i >= n {
        assert r[i] == a[i - n];
      }
    }
  }

  /** The alias `Add` chooses for a new path split into `elems`: the first
      valid candidate from the loop over suffixes, or else the last candidate
      tried (none when there are no elements) with `x`s prepended. */
  function Allocate(imp: Imports, elems: seq<string>): (alias: string)
    ensures IsValid(imp, alias)
    ensures forall i :: 0 <= i < |alias| ==> IsIdentifierChar(alias[i])
  {
    match FirstValidSuffix(imp, elems, 1)
    case Some(i) => Candidate(elems, i)
    case None =>
      var last := if |elems| == 0 then "" else Candidate(elems, |elems|);
      XPrefixKeepsIdentifierChars(imp, last);
      XPrefix(imp, last)
  }

  /** The alias chosen for a new path is a usable alias name. */
  lemma AllocateIsAliasName(imp: Imports, elems: seq<string>)
    ensures IsAliasName(Allocate(imp, elems))
  {
    var a := Allocate(imp, elems);
    assert IsValid(imp, a);
  }

  /** The paths for which `Add` allocates nothing. */
  const NoAliasPaths: set<string> := {"", ".", "/"}

  /** `Imports.Add`. The paths "", "." and "/" get the empty alias and leave
      the map alone; a path already in the map gets its alias back and leaves
      the map alone; any other path gets a valid alias name no path holds
      yet, and the map gains exactly that entry. */
  function Add(imp: Imports, path: string): (r: Added)
    ensures path in NoAliasPaths ==> r == Added("", imp)
    ensures path !in NoAliasPaths && path in imp ==> r == Added(imp[path], imp)
    ensures path !in NoAliasPaths && path !in imp ==>
      && r.imports == imp[path := r.alias]
      && IsValid(imp, r.alias)
      && IsAliasName(r.alias)
  {
    if path in NoAliasPaths then Added("", imp)
    else if path in imp then Added(imp[path], imp)
    else
      var alias := Allocate(imp, Strings.Split(path, '/'));
      AllocateIsAliasName(imp, Strings.Split(path, '/'));
      Added(alias, imp[path := alias])
  }

  // ---------------------------------------------------------------------------
  // Properties of Add

  /** No two paths share an alias. */
  ghost predicate DistinctAliases(imp: Imports) {
    forall p, q :: p in imp && q in imp && p != q ==> imp[p] != imp[q]
  }

  /** The invariant `Add` keeps: aliases are pairwise distinct, valid alias
      names. */
  ghost predicate WellFormed(imp: Imports) {
    && DistinctAliases(imp)
    && forall p :: p in imp ==> IsAliasName(imp[p])
  }

  /** `Add` keeps the aliases pairwise distinct: the alias it allocates is
      held by no path yet. */
  lemma AddPreservesDistinct(imp: Imports, path: string)
    requires DistinctAliases(imp)
    ensures DistinctAliases(Add(imp, path).imports)
  {
    var r := Add(imp, path);
    if path !in NoAliasPaths && path !in imp {
      forall p, q | p in r.imports && q in r.imports && p != q
        ensures r.imports[p] != r.imports[q]
      {
        if p == path {
          assert imp[q] in imp.Values;
        } else if q == path {
          assert imp[p] in imp.Values;
        }
      }
    }
  }

  /** `Add` keeps the aliases pairwise distinct and valid, and changes no
      entry that was already there. */
  lemma AddPreservesWellFormed(imp: Imports, path: string)
    requires WellFormed(imp)
    ensures WellFormed(Add(imp, path).imports)
    ensures forall p :: p in imp ==> p in Add(imp, path).imports && Add(imp, path).imports[p] == imp[p]
  {
    AddPreservesDistinct(imp, path);
  }

  /** `Add` is idempotent: adding the same path again returns the same alias
      and leaves the map as the first call left it. */
  lemma AddIdempotent(imp: Imports, path: string)
    ensures Add(Add(imp, path).imports, path) == Add(imp, path)
  {
  }

  /** The loop over suffixes stops at the shortest valid one. */
  lemma FirstValidSuffixIsShortest(imp: Imports, elems: seq<string>, start: nat, k: nat)
    requires 1 <= start <= k <= |elems|
    requires IsValid(imp, Candidate(elems, k))
    requires forall j :: start <= j < k ==> !IsValid(imp, Candidate(elems, j))
    ensures FirstValidSuffix(imp, elems, start) == Some(k)
  {
    var r := FirstValidSuffix(imp, elems, start);
    if r.None? || r.value != k {
      assert false;
    }
  }

  /** `Add` picks the shortest valid suffix: when the candidate from the last
      `k` elements is valid and no shorter one is, the alias is that
      candidate. */
  lemma AddPicksShortestValidSuffix(imp: Imports, path: string, k: nat)
    requires path !in NoAliasPaths && path !in imp
    requires 1 <= k <= |Strings.Split(path, '/')|
    requires IsValid(imp, Candidate(Strings.Split(path, '/'), k))
    requires forall j :: 1 <= j < k ==> !IsValid(imp, Candidate(Strings.Split(path, '/'), j))
    ensures Add(imp, path).alias == Candidate(Strings.Split(path, '/'), k)
  {
    FirstValidSuffixIsShortest(imp, Strings.Split(path, '/'), 1, k);
  }

  /** In particular, when the last path element, cleaned, is a valid alias,
      it is the alias. */
  lemma AddPrefersLastElement(imp: Imports, path: string)
    requires path !in NoAliasPaths && path !in imp
    requires var elems := Strings.Split(path, '/');
      IsValid(imp, RemoveInvalid(elems[|elems| - 1]))
    ensures var elems := Strings.Split(path, '/');
      Add(imp, path).alias == RemoveInvalid(elems[|elems| - 1])
  {
    var elems := Strings.Split(path, '/');
    var n := |elems|;
    var suffix := elems[n - 1..];
    assert suffix == [elems[n - 1]];
    assert Strings.Join(suffix, "") == elems[n - 1];
    assert Candidate(elems, 1) == RemoveInvalid(elems[n - 1]);
    AddPicksShortestValidSuffix(imp, path, 1);
  }

  /** When no suffix gives a valid candidate, the alias is the candidate from
      all the elements with one or more `x`s in front. */
  lemma AllocateFallsBackToXPrefix(imp: Imports, elems: seq<string>)
    requires |elems| >= 1
    requires forall j :: 1 <= j <= |elems| ==> !IsValid(imp, Candidate(elems, j))
    ensures var a := Allocate(imp, elems);
      && |a| > |NewAlias(elems)|
      && a == Xs(|a| - |NewAlias(elems)|) + NewAlias(elems)
  {
    assert elems[|elems| - |elems|..] == elems;
    var last := Candidate(elems, |elems|);
    assert !IsValid(imp, last);
    if FirstValidSuffix(imp, elems, 1).Some? {
      assert false;
    }
    var a := XPrefix(imp, last);
    assert Allocate(imp, elems) == a;
    XsNone(last);
  }

  /** The same for `Add`: when no suffix of the path gives a valid candidate,
      the alias is one or more `x`s followed by the cleaned concatenation of
      all path elements. */
  lemma AddFallsBackToXPrefix(imp: Imports, path: string)
    requires path !in NoAliasPaths && path !in imp
    requires forall j :: 1 <= j <= |Strings.Split(path, '/')| ==>
      !IsValid(imp, Candidate(Strings.Split(path, '/'), j))
    ensures var elems := Strings.Split(path, '/');
      var a := Add(imp, path).alias;
      && |a| > |NewAlias(elems)|
      && a == Xs(|a| - |NewAlias(elems)|) + NewAlias(elems)
  {
    AllocateFallsBackToXPrefix(imp, Strings.Split(path, '/'));
  }

  // ---------------------------------------------------------------------------
  // A sequence of Adds

  /** Paths added one after another: the aliases returned, in order, and the
      map at the end. */
  function AddAll(imp: Imports, paths: seq<string>): (r: (seq<string>, Imports))
    ensures |r.0| == |paths|
    decreases |paths|
  {
    if |paths| == 0 then ([], imp)
    else
      var (aliases, m) := AddAll(imp, paths[..|paths| - 1]);
      var added := Add(m, paths[|paths| - 1]);
      (aliases + [added.alias], added.imports)
  }

  /** `Add` records the alias it returns under the path, unless the path is
      one that gets no alias, and keeps every entry already there. */
  lemma AddRecordsAlias(imp: Imports, path: string)
    ensures var r := Add(imp, path);
      && (path !in NoAliasPaths ==> path in r.imports && r.imports[path] == r.alias)
      && (forall p :: p in imp ==> p in r.imports && r.imports[p] == imp[p])
  {
  }

  /** After any sequence of `Add` calls the aliases are still pairwise
      distinct (and valid alias names, if they were at the start), no entry
      that was there has changed, and every path that got an alias still
      holds it at the end. */
  lemma {:induction false} AddAllRecordsAliases(imp: Imports, paths: seq<string>)
    requires DistinctAliases(imp)
    ensures var (aliases, m) := AddAll(imp, paths);
      && DistinctAliases(m)
      && (WellFormed(imp) ==> WellFormed(m))
      && (forall p :: p in imp ==> p in m && m[p] == imp[p])
      && (forall i :: 0 <= i < |paths| && paths[i] !in NoAliasPaths ==>
            paths[i] in m && m[paths[i]] == aliases[i])
    decreases |paths|
  {
    if |paths| > 0 {
      var n := |paths|;
      var front := paths[..n - 1];
      AddAllRecordsAliases(imp, front);
      var (aliases0, m0) := AddAll(imp, front);
      AddPreservesDistinct(m0, paths[n - 1]);
      if WellFormed(imp) {
        AddPreservesWellFormed(m0, paths[n - 1]);
      }
      AddRecordsAlias(m0, paths[n - 1]);
      var (aliases, m) := AddAll(imp, paths);
      assert aliases == aliases0 + [Add(m0, paths[n - 1]).alias];
      assert m == Add(m0, paths[n - 1]).imports;
      forall i | 0 <= i < n && paths[i] !in NoAliasPaths
        ensures paths[i] in m && m[paths[i]] == aliases[i]
      {
        if i < n - 1 {
          assert paths[i] == front[i];
        }
      }
    }
  }

  /** Paths that differ and are added one after another get aliases that
      differ. */
  lemma AddAllGivesDistinctAliases(imp: Imports, paths: seq<string>, i: nat, j: nat)
    requires DistinctAliases(imp)
    requires i < |paths| && j < |paths|
    requires paths[i] !in NoAliasPaths && paths[j] !in NoAliasPaths
    requires paths[i] != paths[j]
    ensures AddAll(imp, paths).0[i] != AddAll(imp, paths).0[j]
  {
    AddAllRecordsAliases(imp, paths);
  }

  // ---------------------------------------------------------------------------
  // Examples

  /** The candidate from a single element that holds identifier runes only
      is the element itself. */
  lemma CandidateOfCleanElement(elems: seq<string>)
    requires |elems| >= 1
    requires forall c :: c in elems[|elems| - 1] ==> IsIdentifierChar(c)
    ensures Candidate(elems, 1) == elems[|elems| - 1]
  {
    assert elems[|elems| - 1..] == [elems[|elems| - 1]];
  }

  /** Of two clean elements, when the last is taken but the concatenation
      is free, the concatenation is chosen. */
  lemma AllocatePairLastTaken(imp: Imports, a: string, b: string)
    requires forall c :: c in a + b ==> IsIdentifierChar(c)
    requires !IsValid(imp, b) && IsValid(imp, a + b)
    ensures Allocate(imp, [a, b]) == a + b
  {
    var elems := [a, b];
    assert forall c :: c in b ==> c in a + b;
    CandidateOfCleanElement(elems);
    assert !IsValid(imp, Candidate(elems, 1));
    assert Candidate(elems, 2) == a + b by {
      assert elems[0..] == [a, b];
      Strings.JoinTightSnoc([a], b);
      assert [a] + [b] == [a, b];
    }
    FirstValidSuffixIsShortest(imp, elems, 1, 2);
    assert Allocate(imp, elems) == Candidate(elems, 2);
  }

  /** A path `a/b` of two clean elements whose last element is taken but
      whose concatenation is free gets the concatenation. */
  lemma AddTwoElementPath(imp: Imports, a: string, b: string)
    requires '/' !in a && '/' !in b
    requires forall c :: c in a + b ==> IsIdentifierChar(c)
    requires a + "/" + b !in imp
    requires !IsValid(imp, b) && IsValid(imp, a + b)
    ensures Add(imp, a + "/" + b).alias == a + b
  {
    var path := a + "/" + b;
    Strings.JoinPair(a, b, "/");
    Strings.SplitJoin([a, b], '/');
    assert |path| >= 2 by {
      assert |a + b| > 0;
    }
    assert path !in NoAliasPaths;
    AllocatePairLastTaken(imp, a, b);
    assert Add(imp, path).alias == Allocate(imp, [a, b]);
  }

  /** One taken element whose `x`-prefixed form is free is given that form. */
  lemma AllocateSingleTaken(imp: Imports, a: string)
    requires forall c :: c in a ==> IsIdentifierChar(c)
    requires !IsValid(imp, a) && IsValid(imp, ['x'] + a)
    ensures Allocate(imp, [a]) == ['x'] + a
  {
    CandidateOfCleanElement([a]);
    assert FirstValidSuffix(imp, [a], 1) == None;
    assert XPrefix(imp, a) == XPrefix(imp, ['x'] + a);
  }

  /** A path of one clean element that is taken, while the element with one
      `x` in front is free, gets the element with one `x` in front. */
  lemma AddOneElementPathTaken(imp: Imports, a: string)
    requires '/' !in a && |a| > 0
    requires forall c :: c in a ==> IsIdentifierChar(c)
    requires a !in imp
    requires !IsValid(imp, a) && IsValid(imp, ['x'] + a)
    ensures Add(imp, a).alias == ['x'] + a
  {
    Strings.SplitWithout(a, '/');
    assert a !in NoAliasPaths by {
      assert a[0] in a;
    }
    AllocateSingleTaken(imp, a);
    assert Add(imp, a).alias == Allocate(imp, [a]);
  }

  /** A string is not an alias in use when every alias in use has another
      length. */
  lemma NotInUseByLength(imp: Imports, v: string)
    requires forall p :: p in imp ==> |imp[p]| != |v|
    ensures v !in imp.Values
  {
  }

  /** The doc comment's example, stated for any element `e` and last
      element `j` shaped like "encoding" and "json": with `j` in use, `e/j`
      gets `e + j`, and then the path `e + j` gets `x` followed by `e + j`. */
  lemma TakenLastElementThenTakenPath(e: string, j: string)
    requires '/' !in e && '/' !in j && |e| > 0 && |j| > 0
    requires forall c :: c in e + j ==> IsIdentifierChar(c)
    requires Unicode.IsLetter(e[0])
    requires |e + j| > 11
    ensures var first := Add(map[j := j], e + "/" + j);
      && first.alias == e + j
      && Add(first.imports, e + j).alias == ['x'] + (e + j)
  {
    TakenLastElement(e, j);
    TakenPath(e, j);
  }

  /** The first half of the example: `e/j` gets `e + j`. */
  lemma TakenLastElement(e: string, j: string)
    requires '/' !in e && '/' !in j && |e| > 0 && |j| > 0
    requires forall c :: c in e + j ==> IsIdentifierChar(c)
    requires Unicode.IsLetter(e[0])
    requires |e + j| > 11
    ensures Add(map[j := j], e + "/" + j) == Added(e + j, map[j := j, e + "/" + j := e + j])
  {
    var imp := map[j := j];
    var ej := e + j;
    assert !IsValid(imp, j) by { assert imp[j] in imp.Values; }
    assert IsValid(imp, ej) by {
      NotInUseByLength(imp, ej);
    }
    assert |e + "/" + j| != |j|;
    AddTwoElementPath(imp, e, j);
  }

  /** The second half of the example: the path `e + j`, whose alias is
      now taken, gets `x` followed by `e + j`. */
  lemma TakenPath(e: string, j: string)
    requires '/' !in e && '/' !in j && |e| > 0 && |j| > 0
    requires forall c :: c in e + j ==> IsIdentifierChar(c)
    requires |e + j| > 11
    ensures Add(map[j := j, e + "/" + j := e + j], e + j).alias == ['x'] + (e + j)
  {
    var ej, path := e + j, e + "/" + j;
    var imp2 := map[j := j, path := ej];
    assert !IsValid(imp2, ej) by { assert imp2[path] in imp2.Values; }
    assert IsValid(imp2, ['x'] + ej) by {
      NoKeywordStartsWithX(['x'] + ej);
      NotInUseByLength(imp2, ['x'] + ej);
    }
    assert ej !in imp2 by { assert |ej| != |path| && |ej| != |j|; }
    AddOneElementPathTaken(imp2, ej);
  }

  /** The example of the doc comment on `Add`: with `json` in use,
      "encoding/json" gets "encodingjson", and then "encodingjson" gets
      "xencodingjson". */
  lemma DocCommentExample()
    ensures var first := Add(map["json" := "json"], "encoding/json");
      && first.alias == "encodingjson"
      && Add(first.imports, "encodingjson").alias == "xencodingjson"
  {
    var e, j := "encoding", "json";
    assert e + "/" + j == "encoding/json";
    assert e + j == "encodingjson";
    assert ['x'] + "encodingjson" == "xencodingjson";
    TakenLastElementThenTakenPath(e, j);
  }
}
