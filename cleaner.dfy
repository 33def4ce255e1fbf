/** The whitelist filter of `deep_clean_text`: decompose, keep letters,
    numbers, punctuation, separators and three control characters, then
    recompose. The normalisation forms and the category database are library
    tables; they are parameters here, so every property holds whatever the
    tables say. */
module Cleaner {

  /** A Unicode general category as `unicodedata.category` spells it: a major
      class letter and a minor one ("Lu", "Nd", "So", "Mn", ...). */
  datatype Category = Category(major: char, minor: char)

  /** The library tables `deep_clean_text` consults. */
  datatype UnicodeTables = UnicodeTables(
    nfd: string -> string,
    nfc: string -> string,
    category: char -> Category)

  /** The major classes kept: letters, numbers, punctuation, separators. */
  const AllowedMajors: string := "LNPZ"
  /** The control characters kept whatever their category. */
  const AllowedControls: string := "\n\r\t"

  /** The test applied to each decomposed character. */
  predicate Allowed(c: char, category: char -> Category) {
    category(c).major in AllowedMajors || c in AllowedControls
  }

  /** The characters of `s` that pass the test, in their order. */
  function Filtered(s: string, category: char -> Category): (r: string)
    ensures |r| <= |s|
    ensures forall k :: 0 <= k < |r| ==> Allowed(r[k], category)
  {
    if |s| == 0 then []
    else Filtered(s[..|s| - 1], category) + (if Allowed(s[|s| - 1], category) then [s[|s| - 1]] else [])
  }

  /** The positions of `s` whose characters pass the test, ascending. */
  function KeptIndices(s: string, category: char -> Category): (ix: seq<nat>)
    ensures forall j :: 0 <= j < |ix| ==> ix[j] < |s| && Allowed(s[ix[j]], category)
    ensures forall j, j' :: 0 <= j < j' < |ix| ==> ix[j] < ix[j']
    ensures forall k :: 0 <= k < |s| && Allowed(s[k], category) ==> k in ix
  {
    if |s| == 0 then []
    else
      var front := s[..|s| - 1];
      var ix := KeptIndices(front, category);
      assert forall k :: 0 <= k < |front| ==> front[k] == s[k];
      ix + (if Allowed(s[|s| - 1], category) then [|s| - 1] else [])
  }

  /** The filter keeps exactly the characters that pass
      the test, in order: its output is `s` read at the ascending positions
      whose characters pass, so nothing else is dropped or reordered. */
  lemma {:induction false} FilteredIsKeptSubsequence(s: string, category: char -> Category)
    ensures |Filtered(s, category)| == |KeptIndices(s, category)|
    ensures forall j :: 0 <= j < |KeptIndices(s, category)| ==>
              Filtered(s, category)[j] == s[KeptIndices(s, category)[j]]
  {
    if |s| > 0 {
      var front := s[..|s| - 1];
      FilteredIsKeptSubsequence(front, category);
      assert forall k :: 0 <= k < |front| ==> front[k] == s[k];
    }
  }

  /** Each character occurs in the output exactly as
      often as in the input when it passes the test, and not at all
      otherwise. */
  lemma {:induction false} FilteredCounts(s: string, category: char -> Category)
    ensures forall c :: multiset(Filtered(s, category))[c] ==
                          if Allowed(c, category) then multiset(s)[c] else 0
  {
    if |s| > 0 {
      var front := s[..|s| - 1];
      FilteredCounts(front, category);
      assert s == front + [s[|s| - 1]];
    }
  }

  /** `\n`, `\r` and `\t` survive the filter, every one
      of them, whatever category the table gives them. */
  lemma ControlsSurvive(s: string, category: char -> Category)
    ensures forall c :: c in AllowedControls ==> multiset(Filtered(s, category))[c] == multiset(s)[c]
  {
    FilteredCounts(s, category);
  }

  /** A string whose every character passes the test is its own filtering. */
  lemma {:induction false} FilterKeepsAllowed(s: string, category: char -> Category)
    requires forall k :: 0 <= k < |s| ==> Allowed(s[k], category)
    ensures Filtered(s, category) == s
  {
    if |s| > 0 {
      FilterKeepsAllowed(s[..|s| - 1], category);
    }
  }

  /** Filtering the output again changes nothing. */
  lemma FilterIdempotent(s: string, category: char -> Category)
    ensures Filtered(Filtered(s, category), category) == Filtered(s, category)
  {
    FilterKeepsAllowed(Filtered(s, category), category);
  }

  /** The filter works character by character: filtering a concatenation is
      concatenating the filterings. */
  lemma {:induction false} FilterAppend(a: string, b: string, category: char -> Category)
    ensures Filtered(a + b, category) == Filtered(a, category) + Filtered(b, category)
    decreases |b|
  {
    if |b| > 0 {
      var front := b[..|b| - 1];
      FilterAppend(a, front, category);
      var last := if Allowed(b[|b| - 1], category) then [b[|b| - 1]] else [];
      assert (a + b)[..|a + b| - 1] == a + front;
      assert Filtered(a + b, category) == Filtered(a + front, category) + last;
      assert Filtered(b, category) == Filtered(front, category) + last;
    } else {
      assert a + b == a;
    }
  }

  /** A single character is kept exactly when it passes the test. */
  lemma FilteredSingle(c: char, category: char -> Category)
    ensures Filtered([c], category) == if Allowed(c, category) then [c] else []
  {
    assert [c][..0] == [];
  }

  /** The keycap "8" followed by the emoji variation selector and the
      combining enclosing keycap: with the categories the Unicode database
      gives them (Nd, Mn, Me), only the digit is kept. */
  lemma KeycapKeepsDigit(s: string, category: char -> Category)
    requires s == "8\U{FE0F}\U{20E3}"
    requires category('8') == Category('N', 'd')
    requires category('\U{FE0F}') == Category('M', 'n')
    requires category('\U{20E3}') == Category('M', 'e')
    ensures Filtered(s, category) == "8"
  {
    assert s == [s[0]] + [s[1]] + [s[2]];
    FilterAppend([s[0]] + [s[1]], [s[2]], category);
    FilterAppend([s[0]], [s[1]], category);
    FilteredSingle(s[0], category);
    FilteredSingle(s[1], category);
    FilteredSingle(s[2], category);
  }

  /** What `deep_clean_text` returns, as a specification. */
  function CleanText(text: string, tables: UnicodeTables): string {
    tables.nfc(Filtered(tables.nfd(text), tables.category))
  }

  /** `deep_clean_text(text)`: the loop builds `clean_chars` by appending
      each decomposed character that passes the test. */
  method DeepCleanText(text: string, tables: UnicodeTables) returns (result: string)
    ensures result == CleanText(text, tables)
  {
    var decomposedText := tables.nfd(text);
    var cleanChars: string := [];
    for i := 0 to |decomposedText|
      invariant cleanChars == Filtered(decomposedText[..i], tables.category)
    {
      var ch := decomposedText[i];
      var category := tables.category(ch);
      if category.major in AllowedMajors || ch in AllowedControls {
        cleanChars := cleanChars + [ch];
      }
      assert decomposedText[..i + 1][..i] == decomposedText[..i];
    }
    assert decomposedText[..|decomposedText|] == decomposedText;
    result := tables.nfc(cleanChars);
  }
}
