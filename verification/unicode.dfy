/** The parts of Go's `unicode` package the library consults: the general
    categories behind `IsUpper`, `IsTitle`, `IsLetter` and `IsNumber`, the
    simple case mappings `ToLower` and `ToTitle`, and the white-space set of
    `IsSpace`.

    The category tables and the case mappings are given for the Latin-1 block
    (U+0000..U+00FF) together with the whole title-case category Lt and the
    lower-case partners of its letters; any other rune is treated as caseless
    and as neither a letter nor a number. `IsSpace` is the complete Unicode
    White_Space set, as Go defines it. */
module Unicode {

  /** Category Lu restricted to the block: A-Z, U+00C0..U+00D6, U+00D8..U+00DE. */
  predicate IsUpperCase(c: char) {
    || ('A' <= c <= 'Z')
    || ('\U{00C0}' <= c <= '\U{00D6}')
    || ('\U{00D8}' <= c <= '\U{00DE}')
  }

  /** Category Lt, complete: the four Latin digraphs U+01C5, U+01C8, U+01CB,
      U+01F2 and the Greek letters with prosgegrammeni U+1F88..U+1F8F,
      U+1F98..U+1F9F, U+1FA8..U+1FAF, U+1FBC, U+1FCC, U+1FFC. */
  predicate IsTitleCase(c: char) {
    || c == '\U{01C5}' || c == '\U{01C8}' || c == '\U{01CB}' || c == '\U{01F2}'
    || ('\U{1F88}' <= c <= '\U{1F8F}')
    || ('\U{1F98}' <= c <= '\U{1F9F}')
    || ('\U{1FA8}' <= c <= '\U{1FAF}')
    || c == '\U{1FBC}' || c == '\U{1FCC}' || c == '\U{1FFC}'
  }

  /** The lower-case partners of the title-case letters: U+01C6, U+01C9,
      U+01CC, U+01F3, U+1F80..U+1F87, U+1F90..U+1F97, U+1FA0..U+1FA7, U+1FB3,
      U+1FC3, U+1FF3. */
  predicate IsTitlePartner(c: char) {
    || c == '\U{01C6}' || c == '\U{01C9}' || c == '\U{01CC}' || c == '\U{01F3}'
    || ('\U{1F80}' <= c <= '\U{1F87}')
    || ('\U{1F90}' <= c <= '\U{1F97}')
    || ('\U{1FA0}' <= c <= '\U{1FA7}')
    || c == '\U{1FB3}' || c == '\U{1FC3}' || c == '\U{1FF3}'
  }

  /** Category Ll: a-z, U+00B5, U+00DF..U+00F6, U+00F8..U+00FF and the
      title-case partners. */
  predicate IsLowerCase(c: char) {
    || ('a' <= c <= 'z')
    || c == '\U{00B5}'
    || ('\U{00DF}' <= c <= '\U{00F6}')
    || ('\U{00F8}' <= c <= '\U{00FF}')
    || IsTitlePartner(c)
  }

  /** Category L: the cased letters plus the two Lo letters U+00AA and U+00BA. */
  predicate IsLetter(c: char) {
    IsUpperCase(c) || IsTitleCase(c) || IsLowerCase(c) || c == '\U{00AA}' || c == '\U{00BA}'
  }

  /** Category N: 0-9 (Nd) and the No runes U+00B2, U+00B3, U+00B9, U+00BC..U+00BE. */
  predicate IsNumber(c: char) {
    || ('0' <= c <= '9')
    || c == '\U{00B2}' || c == '\U{00B3}' || c == '\U{00B9}'
    || ('\U{00BC}' <= c <= '\U{00BE}')
  }

  /** Go's `unicode.IsSpace`: the Unicode White_Space property. */
  predicate IsSpace(c: char) {
    || ('\t' <= c <= '\r')
    || c == ' '
    || c == '\U{0085}'
    || c == '\U{00A0}'
    || c == '\U{1680}'
    || ('\U{2000}' <= c <= '\U{200A}')
    || c == '\U{2028}' || c == '\U{2029}'
    || c == '\U{202F}' || c == '\U{205F}'
    || c == '\U{3000}'
  }

  /** Simple lower-case mapping: an upper-case letter of the block maps 32
      code points up, a title-case letter to its partner (the digraphs one
      code point up, U+1FBC, U+1FCC and U+1FFC nine down, the other Greek
      letters eight down); every other rune maps to itself. */
  function ToLower(c: char): (r: char)
    ensures IsUpperCase(c) || IsTitleCase(c) ==> IsLowerCase(r) && r != c
    ensures !IsUpperCase(c) && !IsTitleCase(c) ==> r == c
  {
    if IsUpperCase(c) then (c as int + 32) as char
    else if c == '\U{01C5}' || c == '\U{01C8}' || c == '\U{01CB}' || c == '\U{01F2}' then (c as int + 1) as char
    else if c == '\U{1FBC}' || c == '\U{1FCC}' || c == '\U{1FFC}' then (c as int - 9) as char
    else if IsTitleCase(c) then (c as int - 8) as char
    else c
  }

  /** Simple title-case mapping: the lower-case letters of the block map 32
      code points down, except U+00B5 (to U+039C), U+00DF (no single-rune
      mapping, so itself) and U+00FF (to U+0178); a title-case partner maps
      back to its title-case letter; every other rune maps to itself. */
  function ToTitle(c: char): (r: char)
    ensures IsLowerCase(c) && c != '\U{00DF}' ==> r != c && !IsLowerCase(r)
    ensures IsTitlePartner(c) ==> IsTitleCase(r) && ToLower(r) == c
    ensures !IsLowerCase(c) ==> r == c
  {
    if 'a' <= c <= 'z' then (c as int - 32) as char
    else if '\U{00E0}' <= c <= '\U{00F6}' || '\U{00F8}' <= c <= '\U{00FE}' then (c as int - 32) as char
    else if c == '\U{00FF}' then '\U{0178}'
    else if c == '\U{00B5}' then '\U{039C}'
    else if c == '\U{01C6}' || c == '\U{01C9}' || c == '\U{01CC}' || c == '\U{01F3}' then (c as int - 1) as char
    else if c == '\U{1FB3}' || c == '\U{1FC3}' || c == '\U{1FF3}' then (c as int + 9) as char
    else if IsTitlePartner(c) then (c as int + 8) as char
    else c
  }

  /** Lower-casing an upper- or title-case rune yields a letter that is
      neither upper- nor title-case. */
  lemma LowerOfCasedIsLetter(c: char)
    requires IsUpperCase(c) || IsTitleCase(c)
    ensures IsLetter(ToLower(c)) && !IsUpperCase(ToLower(c)) && !IsTitleCase(ToLower(c))
  {
  }

  /** White space is neither a letter, a number nor a cased rune. */
  lemma SpaceIsNotWordRune(c: char)
    requires IsSpace(c)
    ensures !IsLetter(c) && !IsNumber(c) && !IsUpperCase(c) && !IsTitleCase(c)
  {
  }
}
