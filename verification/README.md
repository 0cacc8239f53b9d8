# gospec identifiers and import aliases, in Dafny

A model of the two core pieces of the Go library `gospec`:

- **identifier.go**: `parse` splits an identifier-like string into lower-case
  words. Upper- and title-case runes start a new word and are lowered. Letters
  and numbers continue a word. Every other rune separates words and is dropped.
  The surrounding white space is trimmed first. `NewIdentifier` renders the
  words in six conventions: camel, kebab, natural, package, pascal and snake.
- **imports.go**: `Imports.Add` gives each new import path a unique alias. It
  first tries the last path element, then the last two run together, and so
  on; each candidate has every rune outside `[0-9A-Za-z_]` removed. If none of
  them is valid, it prepends `x` to the last candidate until the result is
  valid. An alias is valid when it is non-empty, not a Go keyword, starts with
  a letter, and is not yet held by any path.

The project has four modules:

- `Unicode` holds the rune classes and case mappings of Go's `unicode` package
  that the library consults.
- `Strings` holds `Join`, `Split` on one rune and `TrimSpace` from Go's
  `strings` package.
- `Identifier` models identifier.go.
- `ImportAliases` models imports.go.

`Parse` models the loop of `parse` as a state machine over a `Parser`: the
word being built and the words finished so far, with `Shift`, `Write` and one
`Step` per rune. `Segment` is an independent reference definition of the same
split: it says what each rune does to the words of the text before it. The
two are proved equal. The properties of the renderings, such as parsing a
rendering again giving the words back, are proved about `Segment`.

`Add` is a pure function that returns the alias and the map after the call.

## Model

| member | source | states |
|---|---|---|
| Unicode.ToLower | identifier.go:64-66 | an upper- or title-case rune is lowered to a different, lower-case rune; any other rune is left as it is |
| Unicode.ToTitle | identifier.go:140-142 | a lower-case rune other than U+00DF changes and is no longer lower-case; a partner of a title-case letter maps to that letter, which lowers back to it; any other rune is left as it is |
| Unicode.LowerOfCasedIsLetter | identifier.go:64-70 | a lowered upper- or title-case rune is a letter that is no longer upper- or title-case, so the loop writes it into the word it has just opened |
| Unicode.SpaceIsNotWordRune | identifier.go:58-73 | the white space that trimming removes is never a letter, a number or a cased rune, so the loop would only have dropped it |
| Identifier.IsUpper | identifier.go:80-82 | an upper- or title-case rune is itself a letter, and its lower-case form is a letter that is cased neither upper nor title; A to Z are upper-case; white space never is |
| Identifier.IsLower | identifier.go:86-88 | the ASCII letters and digits are word runes; white space, `-` and `_` are not |
| Identifier.Shift | identifier.go:44-49 | afterwards no word is open; the completed words are kept and at most one word is added, never an empty one; run together, the completed words hold what they and the open word held before |
| Identifier.Write | identifier.go:52-54 | the completed words are untouched; the open word keeps its runes and gains the rune at its end |
| Identifier.Step | identifier.go:64-72 | an upper-case rune closes the open word and opens a new one holding just its lower-case form; any other letter or number extends the open word; any other rune closes it; completed words never change |
| Identifier.Scan | identifier.go:63-73 | the words completed before the loop are a prefix of the words after it |
| Strings.Split | imports.go:43 | there is always at least one piece, no piece contains the separator, and there is one piece more than the separator occurs |
| Strings.JoinSplit | imports.go:43 | joining the pieces of a split with the separator gives the string back |
| Strings.SplitJoin | imports.go:43 | splitting parts that are free of the separator, once joined with it, gives the parts back |
| Strings.SplitWithout | imports.go:43 | a string without the separator is split into itself alone |
| Strings.TrimLeftSpace | identifier.go:58 | the result is a suffix of the input, only white space is cut off, and the result does not start with white space |
| Strings.TrimRightSpace | identifier.go:58 | the result is a prefix of the input, only white space is cut off, and the result does not end with white space |
| Strings.TrimSpace | identifier.go:58 | the result is a slice of the input with only white space cut off on either side; it neither starts nor ends with white space; it is empty exactly when the input is all white space |
| Strings.TrimSpaceParts | identifier.go:58 | the input is the trimmed string with white space before and after it |
| Strings.Join | imports.go:64 | no parts join to the empty string; otherwise the result is as long as all the parts together plus one separator between each two neighbours |
| Identifier.Parse | identifier.go:57-76 | the loop over the trimmed string, closed by a final shift and giving no words for an empty string, yields the reference segmentation of the whole input |
| Identifier.ParseYieldsWords | identifier.go:57-76 | every word is non-empty and made of letters and numbers that are not upper-case; run together, the words hold exactly the letters and numbers of the input, in order, with upper-case ones lowered |
| Identifier.ScanSnoc | identifier.go:63-73 | running the loop over one more rune is one more step of the loop body |
| Identifier.ScanFollowsSegment | identifier.go:62-74 | the loop keeps its invariant: with no word open, the finished words are the segmentation so far; with a word open, the finished words and the open one are; after the final shift the words are the segmentation |
| Identifier.SegmentYieldsWords | identifier.go:63-73 | every piece of the reference segmentation is a non-empty word of letters and numbers with no upper-case rune |
| Identifier.FoldHoldsWordRunes | identifier.go:64-69 | the letters and numbers of a string, upper-case ones lowered, are letters and numbers none of which is upper-case |
| Identifier.SegmentConcat | identifier.go:68-72 | text that does not end in a letter or number does not merge its words with what follows it |
| Identifier.SegmentSeparators | identifier.go:72 | runes that are neither letters nor numbers add no words, and the text then no longer ends in a word |
| Identifier.SeparatorsOnly | identifier.go:72 | a string with no letters or numbers has no words |
| Identifier.TrimSpaceIrrelevant | identifier.go:58 | leading and trailing white space make no difference to the words |
| Identifier.SegmentHoldsFold | identifier.go:63-73 | the words run together are the letters and numbers of the input in order, with upper-case ones lowered |
| Identifier.NoWordsIffNoWordRunes | identifier.go:57-76 | a string has no words if and only if it has no letters or numbers |
| Identifier.WordRuneMakesWord | identifier.go:68-70 | a letter or number anywhere in the string gives at least one word |
| Identifier.FoldNonEmpty | identifier.go:68-70 | a letter or number leaves a rune among the word runes, whatever follows it |
| Identifier.SegmentOfWord | identifier.go:63-73 | a word on its own is segmented into itself |
| Identifier.SegmentJoin | identifier.go:63-73 | segmenting words joined with a separator that is neither letter nor number gives the words back |
| Identifier.ParseJoin | identifier.go:57-76 | parsing words joined with such a separator gives the words back |
| Identifier.WordsHoldNoSeparator | identifier.go:86-88 | a word contains no separator rune that is neither letter nor number |
| Identifier.SegmentOfCapitalised | identifier.go:64-70 | an upper-case rune followed by letters and numbers that are not upper-case is one word: the rune lowered, then the rest unchanged |
| Identifier.SegmentSnocUpper | identifier.go:64-67 | an upper- or title-case rune always starts a new word holding its lower-case form |
| Identifier.Title | identifier.go:137-147 | the result is as long as the input, its first rune is the title case of the input's first rune, and every later rune is unchanged |
| Identifier.TitleFrom | identifier.go:139-145 | the loop of `title` from any rune index on: the rune at index 0 is title-cased and every later rune is copied |
| Identifier.Camel | identifier.go:91-101 | no words render as the empty string; otherwise the first word unchanged is followed by the pascal rendering of the other words |
| Identifier.Joined | identifier.go:104-111 | words joined with a one-rune separator come back by splitting on it when no word holds it |
| Identifier.Kebab | identifier.go:104-106 | when no word holds `-`, splitting the rendering on `-` gives the words back |
| Identifier.Natural | identifier.go:109-111 | when no word holds a space, splitting the rendering on spaces gives the words back |
| Identifier.Package | identifier.go:114-116 | no words render as the empty string; otherwise the first word is followed by the package rendering of the other words |
| Identifier.Pascal | identifier.go:119-128 | no words render as the empty string; otherwise the first word title-cased is followed by the pascal rendering of the other words |
| Identifier.Snake | identifier.go:131-133 | when no word holds `_`, splitting the rendering on `_` gives the words back |
| Identifier.CamelPascalDifferInFirstWord | identifier.go:91-128 | camel case starts with the first word unchanged and pascal case with it title-cased; after the first word the two are the same; both are as long as the package rendering |
| Identifier.JoinedWordsComeBack | identifier.go:104-133 | words joined with a separator that is neither letter nor number come back both by parsing the result and by splitting it on the separator |
| Identifier.KebabGivesWordsBack | identifier.go:104-106 | parsing the kebab rendering, or splitting it on `-`, gives the words back |
| Identifier.NaturalGivesWordsBack | identifier.go:109-111 | parsing the natural rendering, or splitting it on a space, gives the words back |
| Identifier.SnakeGivesWordsBack | identifier.go:131-133 | parsing the snake rendering, or splitting it on `_`, gives the words back |
| Identifier.RenderingsGiveWordsBack | identifier.go:90-133 | the three separated renderings give the words back by parsing and by splitting; camel and pascal case are as long as the package rendering; no words render as empty strings throughout |
| Identifier.NewIdentifier | identifier.go:23-34 | all six renderings come from one parse of the input: the source is kept; the package rendering is the input's letters and numbers with upper-case ones lowered; camel case is the first word followed by the pascal rendering of the rest, and pascal case is the first word title-cased followed by that same rendering; parsing or splitting the kebab, snake or natural rendering gives the words of the input back; a string without words renders as empty strings |
| Identifier.ParseUserID | identifier.go:63-73 | "UserID" gives the words "user", "i" and "d": each upper-case rune of a run starts its own word |
| Identifier.ParseUserUnderscoreId | identifier.go:57-76 | "user_id" gives the words "user" and "id" |
| Identifier.UserIdWordsRendered | identifier.go:90-133 | the words "user" and "id" render as "userId", "user-id", "user id", "userid", "UserId" and "user_id" |
| Identifier.UserIdRenderings | identifier.go:23-34 | `NewIdentifier("user_id")` holds those six renderings |
| ImportAliases.NoKeywordStartsWithX | imports.go:98-124 | no Go keyword starts with `x`, so a candidate with `x` in front can only be invalid by being in use |
| ImportAliases.IsKeyword | imports.go:92-95 | every keyword is two to eleven lower-case ASCII letters |
| ImportAliases.IsIdentifierChar | imports.go:19 | the identifier runes are exactly `_` and the ASCII runes that are letters or numbers |
| ImportAliases.RemoveInvalid | imports.go:65 | the result holds identifier runes only, is no longer than the input, and leaves a string of identifier runes unchanged |
| ImportAliases.RemoveInvalidKeepsIdentifierRunes | imports.go:19 | every identifier rune is kept as often as it occurs, and no other rune is kept |
| ImportAliases.RemoveInvalidConcat | imports.go:65 | removing invalid runes from a concatenation removes them from each part |
| ImportAliases.NewAlias | imports.go:63-66 | the alias holds identifier runes only |
| ImportAliases.NewAliasCleansEachElement | imports.go:63-66 | cleaning the joined elements is the same as cleaning each element and running the results together |
| ImportAliases.NewAliasKeepsIdentifierRunes | imports.go:63-66 | the alias holds every identifier rune of the joined elements as often as they do, and no other rune |
| ImportAliases.IsValid | imports.go:70-89 | an alias is valid when it is non-empty, not a keyword, starts with a letter and is held by no path; it carries no contract of its own, and `ValidCleanAlias` and `XPrefixProgresses` state what it means for the candidates `Add` tries |
| ImportAliases.ValidCleanAlias | imports.go:70-89 | for a string of identifier runes, being valid is being a non-keyword starting with a letter that no path holds |
| ImportAliases.Candidate | imports.go:46 | the candidate from no element is empty, and the one from the last element alone is that element with invalid runes removed |
| ImportAliases.FirstValidSuffix | imports.go:45-51 | the loop over suffixes finds a valid candidate with every shorter candidate invalid, or reports that every candidate is invalid |
| ImportAliases.FirstValidSuffixIsShortest | imports.go:45-51 | when the candidate from the last `k` elements is valid and no shorter one is, the loop finds exactly `k` |
| ImportAliases.XPrefix | imports.go:52-54 | the fallback ends with a valid alias that is the candidate with some number of `x`s in front |
| ImportAliases.XPrefixProgresses | imports.go:52-54 | once the candidate starts with `x`, each further `x` leaves fewer aliases in use that are as long as it, so the loop ends |
| ImportAliases.XPrefixIsShortest | imports.go:52-54 | no smaller number of `x`s in front of the candidate gives a valid alias |
| ImportAliases.XPrefixKeepsIdentifierChars | imports.go:52-54 | prepending `x`s keeps a candidate of identifier runes one of identifier runes |
| ImportAliases.Allocate | imports.go:41-54 | the alias chosen for a new path is valid and holds identifier runes only |
| ImportAliases.Add | imports.go:34-57 | "", "." and "/" get the empty alias and leave the map alone; a known path gets its alias back and leaves the map alone; any other path gets a valid alias name and the map gains exactly that entry |
| ImportAliases.AddPreservesDistinct | imports.go:34-57 | if no two paths share an alias before the call, none do after it |
| ImportAliases.AddPreservesWellFormed | imports.go:34-57 | aliases stay pairwise distinct and valid alias names, and no entry already present changes |
| ImportAliases.AddIdempotent | imports.go:38-40 | adding the same path again returns the same alias and leaves the map as the first call left it |
| ImportAliases.AddPicksShortestValidSuffix | imports.go:45-51 | the alias is the candidate from the fewest last path elements that is valid |
| ImportAliases.AddPrefersLastElement | imports.go:24-26 | when the cleaned last path element is a valid alias, it is the alias |
| ImportAliases.AllocateFallsBackToXPrefix | imports.go:52-54 | when no candidate is valid, the alias is one or more `x`s followed by the candidate from all the elements |
| ImportAliases.AddFallsBackToXPrefix | imports.go:52-55 | the same for `Add` on a path none of whose suffixes gives a valid candidate |
| ImportAliases.AddRecordsAlias | imports.go:47-55 | `Add` stores the alias it returns under the path, unless the path gets no alias, and keeps every entry already present |
| ImportAliases.AddAllRecordsAliases | imports.go:21-22 | after any sequence of adds, aliases are still pairwise distinct, earlier entries are unchanged, and every path that got an alias still holds it |
| ImportAliases.AddAllGivesDistinctAliases | imports.go:21-22 | different paths added one after another get different aliases, starting from any map whose aliases are distinct |
| ImportAliases.AddTwoElementPath | imports.go:45-51 | a path `a/b` whose last element is taken but whose two elements run together are free gets `ab` |
| ImportAliases.AddOneElementPathTaken | imports.go:52-55 | a one-element path that is taken, while the element with one `x` in front is free, gets that `x` form |
| ImportAliases.TakenLastElementThenTakenPath | imports.go:30-33 | for any elements shaped like "encoding" and "json": with the last element in use, `e/j` gets `ej`, and then the path `ej` gets `xej` |
| ImportAliases.DocCommentExample | imports.go:30-33 | with "json" in use, "encoding/json" gets "encodingjson", and then "encodingjson" gets "xencodingjson" |

## Left out

- Identifier.IsUpper: covers Latin-1 upper case (U+0000..U+00FF) and the whole title-case category Lt, not all of Unicode's Lu. Upper-case letters beyond Latin-1 are separators in the model. For example, `Parse("\U{0141}\U{00F3}d\U{017A}")` ("Łódź") is `["\U{00F3}d"]` ("ód") here, while Go gives `["łódź"]`. Complete Unicode category tables are too large to state. Within those tables every upper-case rune lowers to a rune that is not upper-case, and the "no upper-case rune" clause of `IsWord`, `ParseYieldsWords`, `SegmentYieldsWords`, `FoldHoldsWordRunes` and `LowerOfCasedIsLetter` rests on that. With Go's full tables it does not hold: `unicode.ToLower` leaves some upper-case letters as they are, such as U+2102 and U+03D2, so Go's `parse("\U{2102}")` is a word holding an upper-case rune.
- Identifier.IsLower: letters and numbers are those of Latin-1 plus Lt and its lower-case partners. Every other letter or number of Unicode is a separator in the model, as the "Łódź" example shows.
- Identifier.Title: `ToTitle` maps only the runes of those tables. Any other rune is left as it is, where Go would title-case it.
- Unicode.ToLower: lowers only the upper-case letters of Latin-1 and the title-case letters. Any other rune is left as it is, where Go lowers it, for example U+0141 to U+0142.
- Unicode.ToTitle: title-cases only the lower-case letters of Latin-1 and the partners of the title-case letters. Any other rune is left as it is, where Go title-cases it, for example U+0142 to U+0141.
- Invalid UTF-8: Go's `range` over a string decodes each invalid byte to U+FFFD. The model takes strings as sequences of already decoded runes. The byte-level tests `len(s) == 0` (identifier.go:59) and `i == 0` (identifier.go:140) agree with their rune-level forms on valid text.
- In-place update of the map: Go's `Add` stores the alias in the receiver map (imports.go:48, imports.go:55), and it panics when that map is nil. The model returns the new map and has no nil map.
- `strings.Builder`: the word being built and the renderings are plain sequences.
- `RemoveUnusedImports`: it parses and reformats Go source through `go/parser` and `go/format`, which are outside the model.
- `NewImports`: the doc comment of `Add` uses it. It is defined outside identifier.go and imports.go and is not part of this model. The model starts the doc-comment example from the map `map["json" := "json"]`.
