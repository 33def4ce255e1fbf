/** The safety gate `is_safe_query` and the limit enforcer `enforce_limit`:
    keyword screening by substring on the upper-cased statement, and a bound
    clause appended when the upper-cased statement holds no `LIMIT`. Neither
    parses SQL; the lemmas below record both the guarantees and the
    heuristics' blind spots. */
module Guard {
  import opened Text

  /** The keywords whose presence blocks a statement. */
  const Forbidden: seq<string> := ["INSERT", "UPDATE", "DELETE", "DROP", "ALTER", "CREATE"]

  /** `is_safe_query(query)`: no forbidden keyword is a substring of the
      upper-cased statement. */
  predicate IsSafeQuery(query: string) {
    forall kw :: kw in Forbidden ==> !Contains(Upper(query), kw)
  }

  /** `keyword` starts at index `i` of `s` when case is ignored. */
  predicate MatchesIgnoringCase(s: string, keyword: string, i: int) {
    0 <= i && i + |keyword| <= |s| && forall k :: 0 <= k < |keyword| ==> UpperChar(s[i + k]) == keyword[k]
  }

  /** A statement is blocked exactly when some forbidden
      keyword occurs in it, in any mix of cases and at any position (inside
      identifiers and literals too). */
  lemma UnsafeIffKeywordOccurs(query: string)
    ensures !IsSafeQuery(query) <==>
            exists kw, i :: kw in Forbidden && MatchesIgnoringCase(query, kw, i)
  {
    var u := Upper(query);
    forall kw, i | kw in Forbidden
      ensures OccursAt(u, kw, i) <==> MatchesIgnoringCase(query, kw, i)
    {
      if 0 <= i && i + |kw| <= |u| {
        var window := u[i..i + |kw|];
        assert forall k :: 0 <= k < |kw| ==> window[k] == u[i + k];
      }
    }
  }

  /** The gate ignores case: lower-casing a statement does not change the
      verdict. */
  lemma SafetyIgnoresCase(query: string)
    ensures IsSafeQuery(Lower(query)) == IsSafeQuery(query)
  {
    UpperOfLower(query);
  }

  /** An identifier such as `created_at` blocks any statement around it,
      harmless or not: the keyword test is a substring test. */
  lemma CreatedAtColumnIsBlocked(before: string, after: string)
    ensures !IsSafeQuery(before + "created_at" + after)
  {
    var word := "create";
    assert Upper(word) == "CREATE" by {
      assert UpperChar('c') == 'C' && UpperChar('r') == 'R' && UpperChar('e') == 'E';
      assert UpperChar('a') == 'A' && UpperChar('t') == 'T';
    }
    assert "created_at" == word + "d_at";
    assert before + "created_at" + after == before + word + ("d_at" + after);
    ContainsUpperOfPart(before, word, "d_at" + after, Forbidden[5]);
  }

  /** The upper-cased statement already names `LIMIT` somewhere. */
  predicate HasLimit(query: string) {
    Contains(Upper(query), "LIMIT")
  }

  /** The decimal digits of `n`, most significant first, as `str(n)` writes
      them. */
  function NatDigits(n: nat): (r: string)
    ensures |r| >= 1 && (r[0] == '0' ==> n == 0)
    ensures forall k :: 0 <= k < |r| ==> '0' <= r[k] <= '9'
  {
    if n < 10 then [('0' as int + n) as char]
    else NatDigits(n / 10) + [('0' as int + n % 10) as char]
  }

  /** The number a string of decimal digits denotes. */
  function DigitsValue(s: string): int {
    if s == [] then 0 else 10 * DigitsValue(s[..|s| - 1]) + (s[|s| - 1] as int - '0' as int)
  }

  /** Reading back the digits gives the number. */
  lemma {:induction false} NatDigitsRoundTrip(n: nat)
    ensures DigitsValue(NatDigits(n)) == n
  {
    if n >= 10 {
      NatDigitsRoundTrip(n / 10);
      var d := NatDigits(n);
      assert d[..|d| - 1] == NatDigits(n / 10);
    }
  }

  /** `str(n)` for an integer: a minus sign, then the digits. */
  function Decimal(n: int): string {
    if n < 0 then "-" + NatDigits(-n) else NatDigits(n)
  }

  /** The clause `enforce_limit` appends. */
  function LimitClause(limit: int): string {
    " LIMIT " + Decimal(limit) + ";"
  }

  predicate IsSemicolon(c: char) {
    c == ';'
  }

  /** `base` is `query` with every trailing `;` removed, as `rstrip(";")`
      leaves it. */
  predicate DropsTrailingSemicolons(query: string, base: string) {
    && |base| <= |query|
    && base == query[..|base|]
    && (forall k :: |base| <= k < |query| ==> query[k] == ';')
    && (base == [] || base[|base| - 1] != ';')
  }

  /** `query.rstrip(";")`. */
  function TrimSemicolons(query: string): (base: string)
    ensures DropsTrailingSemicolons(query, base)
  {
    query[..BackRun(query, IsSemicolon)]
  }

  /** The appended clause names `LIMIT`, whatever precedes it. */
  lemma ClauseHasLimit(base: string, limit: int)
    ensures HasLimit(base + LimitClause(limit))
  {
    var c := LimitClause(limit);
    UpperAppend(base, c);
    assert Upper(c)[1..6] == "LIMIT";
    assert OccursAt(Upper(c), "LIMIT", 1);
    ContainsInExtension(Upper(base), Upper(c), [], "LIMIT");
    assert Upper(base) + Upper(c) + [] == Upper(base + c);
  }

  /** `enforce_limit(query, limit)`. */
  function EnforceLimit(query: string, limit: int): (r: string)
    ensures HasLimit(query) ==> r == query
    ensures HasLimit(r)
    ensures !HasLimit(query) ==>
              && |LimitClause(limit)| <= |r|
              && r[|r| - |LimitClause(limit)|..] == LimitClause(limit)
              && DropsTrailingSemicolons(query, r[..|r| - |LimitClause(limit)|])
  {
    if !HasLimit(query) then
      var base := TrimSemicolons(query);
      ClauseHasLimit(base, limit);
      assert (base + LimitClause(limit))[..|base|] == base;
      base + LimitClause(limit)
    else
      query
  }

  /** A second pass changes nothing, whatever bound it
      is given. */
  lemma EnforceLimitIdempotent(query: string, limit: int, again: int)
    ensures EnforceLimit(EnforceLimit(query, limit), again) == EnforceLimit(query, limit)
  {
  }

  /** An identifier such as `unlimited` suppresses the bound on any
      statement around it: the test is a substring test. */
  lemma LimitedColumnSuppressesBound(before: string, after: string, limit: int)
    ensures EnforceLimit(before + "unlimited" + after, limit) == before + "unlimited" + after
  {
    var word := "limit";
    assert Upper(word) == "LIMIT" by {
      assert UpperChar('l') == 'L' && UpperChar('i') == 'I' && UpperChar('m') == 'M' && UpperChar('t') == 'T';
    }
    assert "unlimited" == "un" + word + "ed";
    assert before + "unlimited" + after == (before + "un") + word + ("ed" + after);
    ContainsUpperOfPart(before + "un", word, "ed" + after, "LIMIT");
  }

  /** Only semicolons are trimmed: a statement without `LIMIT` that does
      not end in `;` is kept whole, and the clause follows it. */
  lemma OnlySemicolonsTrimmed(query: string, limit: int)
    requires !HasLimit(query)
    requires query == [] || query[|query| - 1] != ';'
    ensures EnforceLimit(query, limit) == query + LimitClause(limit)
  {
    assert TrimSemicolons(query) == query;
  }

  /** A statement ending in `;` and a newline keeps both: the clause goes
      after the newline. */
  lemma TrailingNewlineIsKept(statement: string, limit: int)
    requires !HasLimit(statement)
    ensures EnforceLimit(statement + ";\n", limit) == statement + ";\n" + LimitClause(limit)
  {
    var query := statement + ";\n";
    assert !HasLimit(query) by {
      UpperAppend(statement, ";\n");
      assert Upper(";\n") == [';'] + "\n";
      assert Upper(query) == Upper(statement) + [';'] + "\n";
      ContainsAcrossSeparator(Upper(statement), ';', "\n", "LIMIT");
    }
    OnlySemicolonsTrimmed(query, limit);
  }

  /** The clause written for the default bound. */
  lemma DefaultClause()
    ensures LimitClause(10) == " LIMIT 10;"
  {
    assert NatDigits(10) == NatDigits(1) + ['0'];
  }

  /** Every forbidden keyword starts with an upper-case letter. */
  lemma KeywordStartsWithLetter(kw: string)
    requires kw in Forbidden
    ensures |kw| >= 4 && 'A' <= kw[0] <= 'Z'
  {
  }

  /** A string without upper-case letters holds no forbidden keyword. */
  lemma NoKeywordWithoutLetters(t: string, kw: string)
    requires kw in Forbidden
    requires forall k :: 0 <= k < |t| ==> !('A' <= t[k] <= 'Z')
    ensures !Contains(t, kw)
  {
    KeywordStartsWithLetter(kw);
    forall i | OccursAt(t, kw, i) ensures t[i] == kw[0] {
      assert t[i..i + |kw|][0] == t[i];
    }
  }

  /** The word `LIMIT` holds no forbidden keyword. */
  lemma NoKeywordInLimitWord(kw: string)
    requires kw in Forbidden
    ensures !Contains("LIMIT", kw)
  {
    KeywordStartsWithLetter(kw);
    var w := "LIMIT";
    forall i | OccursAt(w, kw, i) ensures i <= 1 && w[i..i + |kw|] == kw {
    }
    assert w[0..4] == "LIMI" && w[1..5] == "IMIT" && w[0..5] == "LIMIT";
  }

  /** The appended clause has no lower-case letter and splits at its spaces
      into the word `LIMIT` and a tail without letters. */
  lemma ClauseShape(limit: int)
    ensures Upper(LimitClause(limit)) == LimitClause(limit)
    ensures LimitClause(limit) == [' '] + ("LIMIT" + [' '] + (Decimal(limit) + ";"))
    ensures forall k :: 0 <= k < |Decimal(limit) + ";"| ==> !('A' <= (Decimal(limit) + ";")[k] <= 'Z')
  {
    var d := Decimal(limit);
    assert forall k :: 0 <= k < |d| ==> '0' <= d[k] <= '9' || d[k] == '-';
    assert Upper(d) == d;
    assert Upper(" LIMIT ") == " LIMIT ";
    assert Upper(";") == ";";
    UpperAppend(" LIMIT ", d);
    UpperAppend(" LIMIT " + d, ";");
  }

  /** No forbidden keyword occurs in the text of an appended clause. */
  lemma ClauseHasNoKeyword(limit: int, kw: string)
    requires kw in Forbidden
    ensures !Contains(Upper(LimitClause(limit)), kw)
  {
    ClauseShape(limit);
    var tail := Decimal(limit) + ";";
    ContainsAcrossSeparator([], ' ', "LIMIT" + [' '] + tail, kw);
    ContainsAcrossSeparator("LIMIT", ' ', tail, kw);
    NoKeywordInLimitWord(kw);
    NoKeywordWithoutLetters(tail, kw);
    assert [] + [' '] + ("LIMIT" + [' '] + tail) == LimitClause(limit);
  }

  /** A keyword in a bounded statement occurs in the part kept from the
      original statement or in the clause. */
  lemma KeywordInBounded(base: string, limit: int, kw: string)
    requires kw in Forbidden
    ensures Contains(Upper(base + LimitClause(limit)), kw) ==> Contains(Upper(base), kw)
  {
    var c := LimitClause(limit);
    ClauseShape(limit);
    UpperAppend(base, c);
    assert Upper(base + c) == Upper(base) + [' '] + c[1..];
    ContainsAcrossSeparator(Upper(base), ' ', c[1..], kw);
    ClauseHasNoKeyword(limit, kw);
    ContainsInExtension([' '], c[1..], [], kw);
    assert [' '] + c[1..] + [] == c;
  }

  /** Bounding a statement that passed the gate yields
      one that still passes it, so what runs at line 309 is still a
      statement the gate accepted at line 301. */
  lemma EnforceLimitPreservesSafety(query: string, limit: int)
    requires IsSafeQuery(query)
    ensures IsSafeQuery(EnforceLimit(query, limit))
  {
    if !HasLimit(query) {
      var base := TrimSemicolons(query);
      assert Upper(base) == Upper(query)[..|base|];
      forall kw | kw in Forbidden ensures !Contains(Upper(base + LimitClause(limit)), kw) {
        KeywordInBounded(base, limit, kw);
        ContainsInPrefix(Upper(query), |base|, kw);
      }
    }
  }
}
