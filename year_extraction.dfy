/**
  The year-extraction heuristic `extract_year` and the two regular expressions
  it uses: `YEAR_RE`, a standalone four-digit `19xx`/`20xx` token, and
  `DATE_PARENS_RE`, a parenthetical holding such a token. Positions are
  indices into the text; a regex search is the leftmost position at which the
  pattern matches.
*/
module YearExtraction {
  import opened Wrappers
  import opened AsciiText

  /** `YEAR_RE` matches at `i`: `19` or `20`, two more digits, and a word
      boundary before and after the four characters. Since the four
      characters are word characters, the token stands alone: no word
      character touches it on either side. */
  predicate IsYearAt(s: string, i: int)
    ensures IsYearAt(s, i) ==>
      0 <= i && i + 4 <= |s| &&
      (i == 0 || !IsWordChar(s[i - 1])) && (i + 4 == |s| || !IsWordChar(s[i + 4]))
  {
    0 <= i && i + 4 <= |s| &&
    ((s[i] == '1' && s[i + 1] == '9') || (s[i] == '2' && s[i + 1] == '0')) &&
    IsDigit(s[i + 2]) && IsDigit(s[i + 3]) &&
    AtWordBoundary(s, i) && AtWordBoundary(s, i + 4)
  }

  function DigitValue(c: char): int
    requires IsDigit(c)
  {
    c as int - '0' as int
  }

  /** `int(group(1))` of a year token: the number its four digits spell. */
  function YearValue(s: string, i: int): (y: int)
    requires IsYearAt(s, i)
    ensures 1900 <= y <= 2099
  {
    1000 * DigitValue(s[i]) + 100 * DigitValue(s[i + 1]) + 10 * DigitValue(s[i + 2]) + DigitValue(s[i + 3])
  }

  /** `YEAR_RE.search` from position `from`: the leftmost year token at or
      after `from`. */
  function FindYear(s: string, from: nat): (r: Option<nat>)
    requires from <= |s|
    ensures r.Some? ==> from <= r.value && IsYearAt(s, r.value)
    ensures r.Some? ==> forall j :: from <= j < r.value ==> !IsYearAt(s, j)
    ensures r.None? ==> forall j :: from <= j ==> !IsYearAt(s, j)
    decreases |s| - from
  {
    if from == |s| then None
    else if IsYearAt(s, from) then Some(from)
    else FindYear(s, from + 1)
  }

  /** The index of the first `)` at or after `from`, as `[^)]*\)` finds it. */
  function FindClose(s: string, from: nat): (r: Option<nat>)
    requires from <= |s|
    ensures r.Some? ==> from <= r.value < |s| && s[r.value] == ')'
    ensures r.Some? ==> forall k :: from <= k < r.value ==> s[k] != ')'
    ensures r.None? ==> forall k :: from <= k < |s| ==> s[k] != ')'
    decreases |s| - from
  {
    if from == |s| then None
    else if s[from] == ')' then Some(from)
    else FindClose(s, from + 1)
  }

  /** A year token lies wholly inside `s[lo..hi]`. */
  ghost predicate YearBetween(s: string, lo: int, hi: int) {
    exists i :: lo <= i && i + 4 <= hi && IsYearAt(s, i)
  }

  /** `DATE_PARENS_RE` matches at `p`: an opening parenthesis, then no `)` up
      to the first `)` after it, and a year token strictly between the two.
      The pattern `\(([^)]*...[^)]*)\)` can only close at that first `)`. */
  ghost predicate ParenMatch(s: string, p: int) {
    0 <= p < |s| && s[p] == '(' &&
    match FindClose(s, p + 1)
    case None => false
    case Some(q) => YearBetween(s, p + 1, q)
  }

  /** `ParenMatch` read as the pattern is written: a `(` at `p`, a `)` at some
      `q` with no `)` strictly between them, and a year token inside. */
  lemma ParenMatchIff(s: string, p: int)
    ensures ParenMatch(s, p) <==>
      0 <= p < |s| && s[p] == '(' &&
      exists q :: p < q < |s| && s[q] == ')' && (forall k :: p < k < q ==> s[k] != ')') && YearBetween(s, p + 1, q)
  {
    if 0 <= p < |s| && s[p] == '(' {
      match FindClose(s, p + 1)
      case Some(q) =>
        forall q' | p < q' < |s| && s[q'] == ')' && (forall k :: p < k < q' ==> s[k] != ')')
          ensures q' == q
        {
        }
      case None =>
    }
  }

  /** Whether `DATE_PARENS_RE` matches at `p`, and if so the index of the `)`
      that ends the match. */
  function DateParensAt(s: string, p: nat): (r: Option<nat>)
    requires p < |s|
    ensures r.Some? <==> ParenMatch(s, p)
    ensures r.Some? ==> FindClose(s, p + 1) == r
  {
    if s[p] != '(' then None
    else match FindClose(s, p + 1)
      case None => None
      case Some(q) =>
        match FindYear(s, p + 1)
        case Some(i) => if i + 4 <= q then Some(q) else None
        case None => None
  }

  /** `DATE_PARENS_RE.search` from `from`: the leftmost match, as the pair of
      the `(` and `)` positions that delimit it. */
  function FindDateParens(s: string, from: nat): (r: Option<(nat, nat)>)
    requires from <= |s|
    ensures r.Some? ==> from <= r.value.0 && ParenMatch(s, r.value.0)
    ensures r.Some? ==> FindClose(s, r.value.0 + 1) == Some(r.value.1)
    ensures r.Some? ==> forall p :: from <= p < r.value.0 ==> !ParenMatch(s, p)
    ensures r.None? ==> forall p :: from <= p ==> !ParenMatch(s, p)
    decreases |s| - from
  {
    if from == |s| then None
    else match DateParensAt(s, from)
      case Some(q) => Some((from, q))
      case None => FindDateParens(s, from + 1)
  }

  /** `YEAR_RE.search(s)` converted with `int`, or `None`. */
  function FirstYear(s: string): (r: Option<int>)
    ensures r.None? <==> forall i :: !IsYearAt(s, i)
    ensures r.Some? ==>
      exists i :: IsYearAt(s, i) && r.value == YearValue(s, i) && forall j :: 0 <= j < i ==> !IsYearAt(s, j)
  {
    match FindYear(s, 0)
    case Some(i) => Some(YearValue(s, i))
    case None => None
  }

  /** `extract_year`: the first year token of the leftmost date parenthetical;
      failing that, the first year token of the whole text; failing that,
      `None`. */
  function ExtractYear(text: string): (r: Option<int>)
    ensures r.Some? ==> 1900 <= r.value <= 2099
  {
    var inParens :=
      match FindDateParens(text, 0)
      case Some((p, q)) => FirstYear(text[p + 1..q])
      case None => None;
    if inParens.Some? then inParens else FirstYear(text)
  }

  // ---------------------------------------------------------------------
  // Properties of the searches
  // ---------------------------------------------------------------------

  /** A leftmost year token is what `FindYear` returns. */
  lemma FindYearLeftmost(s: string, from: nat, i: int)
    requires from <= i && IsYearAt(s, i)
    requires forall j :: from <= j < i ==> !IsYearAt(s, j)
    ensures FindYear(s, from) == Some(i)
  {
  }

  /** Inside a parenthetical `s[p+1..q]` the year tokens are those of `s`:
      the `(` and `)` around the group are non-word characters, so `\b` at the
      group's ends agrees with `\b` in the whole text. */
  lemma GroupYearAt(s: string, p: int, q: int, j: int)
    requires 0 <= p < q < |s| && s[p] == '(' && s[q] == ')'
    requires 0 <= j && j + 4 <= q - p - 1
    ensures IsYearAt(s[p + 1..q], j) <==> IsYearAt(s, p + 1 + j)
    ensures IsYearAt(s, p + 1 + j) ==> YearValue(s[p + 1..q], j) == YearValue(s, p + 1 + j)
  {
    var g := s[p + 1..q];
    assert forall k :: 0 <= k < |g| ==> g[k] == s[p + 1 + k];
    assert AtWordBoundary(g, j) == AtWordBoundary(s, p + 1 + j);
    assert AtWordBoundary(g, j + 4) == AtWordBoundary(s, p + 1 + j + 4);
  }

  /** Once `DATE_PARENS_RE` matched, the inner `YEAR_RE.search` of its group
      always succeeds, and finds the first year token of `s` after the `(`:
      the fall-through from the first phase to the second never happens
      after a parenthetical matched. */
  lemma GroupFirstYear(s: string, p: int, q: int)
    requires ParenMatch(s, p) && FindClose(s, p + 1) == Some(q)
    ensures FindYear(s, p + 1).Some? && FindYear(s, p + 1).value + 4 <= q
    ensures FirstYear(s[p + 1..q]) == Some(YearValue(s, FindYear(s, p + 1).value))
  {
    var i := FindYear(s, p + 1).value;
    var g := s[p + 1..q];
    var j := i - p - 1;
    GroupYearAt(s, p, q, j);
    forall j' | 0 <= j' < j
      ensures !IsYearAt(g, j')
    {
      GroupYearAt(s, p, q, j');
    }
    FindYearLeftmost(g, 0, j);
  }

  /** The leftmost `(` at which `DATE_PARENS_RE` matches is what
      `FindDateParens` returns. */
  lemma FindDateParensLeftmost(s: string, p: int, q: int)
    requires ParenMatch(s, p) && FindClose(s, p + 1) == Some(q)
    requires forall p' :: 0 <= p' < p ==> !ParenMatch(s, p')
    ensures FindDateParens(s, 0) == Some((p, q))
  {
  }

  // ---------------------------------------------------------------------
  // Properties of extract_year
  // ---------------------------------------------------------------------

  /** Parenthetical precedence: when the leftmost matching parenthetical
      spans `(` at `p` to `)` at `q` and `i` is the first year token inside
      it, the result is that year, whatever years occur elsewhere. */
  lemma ParenthesizedYearWins(s: string, p: int, q: int, i: int)
    requires ParenMatch(s, p) && FindClose(s, p + 1) == Some(q)
    requires forall p' :: 0 <= p' < p ==> !ParenMatch(s, p')
    requires p < i && i + 4 <= q && IsYearAt(s, i)
    requires forall j :: p < j < i ==> !IsYearAt(s, j)
    ensures ExtractYear(s) == Some(YearValue(s, i))
  {
    FindDateParensLeftmost(s, p, q);
    FindYearLeftmost(s, p + 1, i);
    GroupFirstYear(s, p, q);
  }

  /** Fallback: with no matching parenthetical anywhere, the result is the
      first year token of the whole text. */
  lemma FirstYearWithoutParens(s: string, i: int)
    requires forall p :: 0 <= p ==> !ParenMatch(s, p)
    requires IsYearAt(s, i)
    requires forall j :: 0 <= j < i ==> !IsYearAt(s, j)
    ensures ExtractYear(s) == Some(YearValue(s, i))
  {
    FindYearLeftmost(s, 0, i);
  }

  /** `extract_year` returns `None` exactly when the text holds no standalone
      `19xx`/`20xx` token. */
  lemma NoYearIff(s: string)
    ensures ExtractYear(s).None? <==> forall i :: !IsYearAt(s, i)
  {
    match FindDateParens(s, 0)
    case Some((p, q)) =>
      GroupFirstYear(s, p, q);
    case None =>
  }

  /** Any returned year is spelled by a year token of the text. */
  lemma ExtractedYearOccurs(s: string)
    requires ExtractYear(s).Some?
    ensures exists i :: IsYearAt(s, i) && YearValue(s, i) == ExtractYear(s).value
  {
    match FindDateParens(s, 0)
    case Some((p, q)) =>
      GroupFirstYear(s, p, q);
      var i := FindYear(s, p + 1).value;
      assert IsYearAt(s, i) && YearValue(s, i) == ExtractYear(s).value;
    case None =>
      var i := FindYear(s, 0).value;
      assert IsYearAt(s, i) && YearValue(s, i) == ExtractYear(s).value;
  }

  // ---------------------------------------------------------------------
  // Examples
  // ---------------------------------------------------------------------

  /** Tokens glued to word characters are not years: `2006s`, `12006`. */
  lemma GluedDigitsAreNoYear()
    ensures ExtractYear("2006s") == None
    ensures ExtractYear("12006") == None
  {
    NoYearIff("2006s");
    NoYearIff("12006");
  }

  /** The air date in parentheses wins over a year that comes before it:
      the leftmost year of the text is 1998, the extracted year 2006. (The
      text is written as a concatenation so that the solver can index it.) */
  lemma AirDateExample(s: string)
    requires s == "1998 remake " + "(aired 2006)"
    ensures FirstYear(s) == Some(1998)
    ensures ExtractYear(s) == Some(2006)
  {
    assert IsYearAt(s, 0) && YearValue(s, 0) == 1998;
    FindYearLeftmost(s, 0, 0);
    assert IsYearAt(s, 19) && YearValue(s, 19) == 2006;
    FindCloseLeftmost(s, 13, 23);
    assert YearBetween(s, 13, 23);
    assert forall j :: 12 < j < 19 ==> !IsYearAt(s, j);
    assert forall p' :: 0 <= p' < 12 ==> s[p'] != '(';
    ParenthesizedYearWins(s, 12, 23, 19);
  }

  /** A first `)` is what `FindClose` returns. */
  lemma FindCloseLeftmost(s: string, from: nat, q: int)
    requires from <= q < |s| && s[q] == ')'
    requires forall k :: from <= k < q ==> s[k] != ')'
    ensures FindClose(s, from) == Some(q)
  {
  }
}
