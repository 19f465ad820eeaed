/**
 * Regular expressions used by the engine. The user-configured patterns are
 * left to an abstract engine (`Matcher`); the few patterns fixed in the code
 * are written out as predicates over characters.
 */
module Patterns {
  import opened Wrappers
  import opened Strings

  /** A match: the half-open range [start, end) of the subject. */
  datatype Span = Span(start: nat, end: nat)

  /** The span, if any, lies inside the subject. */
  predicate Inside(r: Option<Span>, subject: string)
  {
    r.None? || r.value.start <= r.value.end <= |subject|
  }

  /** An engine that never finds anything (the witness that engines exist). */
  function NeverMatches(pattern: string, subject: string): Option<Span>
  {
    None
  }

  /**
   * A regular-expression engine: for a configured pattern, compiled
   * case-insensitively as `(?i:pattern)`, and a subject, the span of the first
   * match `Matcher.find()` reports, if any.
   */
  type Matcher = f: (string, string) -> Option<Span> | forall p, s :: Inside(f(p, s), s)
    witness NeverMatches

  /** `matcher.find() ? matcher.group() : null`: the first match is a piece of the subject. */
  function FirstMatch(m: Matcher, pattern: string, subject: string): (r: Option<string>)
    ensures r.Some? ==> |r.value| <= |subject| && exists i :: OccursAt(subject, r.value, i)
  {
    match m(pattern, subject)
    case None => None
    case Some(sp) =>
      assert OccursAt(subject, subject[sp.start..sp.end], sp.start);
      Some(subject[sp.start..sp.end])
  }

  /** Java's `\s`: space, tab, newline, vertical tab, form feed, carriage return. */
  predicate JavaSpace(c: char)
  {
    c == ' ' || c == '\t' || c == '\n' || c == '\U{000B}' || c == '\U{000C}' || c == '\r'
  }

  predicate Digit(c: char)
  {
    '0' <= c <= '9'
  }

  /** `t.matches("^[0-9,.\\s]+$")`: a unit made only of digits, separators and spaces. */
  predicate NumericText(t: string)
  {
    |t| > 0 && forall i :: 0 <= i < |t| ==> Digit(t[i]) || t[i] == ',' || t[i] == '.' || JavaSpace(t[i])
  }

  /** `t.matches("(?i:^[a-z0-9,.\\s]+$)")`: ASCII letters of either case are allowed too. */
  predicate AlnumText(t: string)
  {
    |t| > 0 && forall i :: 0 <= i < |t| ==>
      'a' <= t[i] <= 'z' || 'A' <= t[i] <= 'Z' || Digit(t[i]) || t[i] == ',' || t[i] == '.' || JavaSpace(t[i])
  }

  /** A unit the address accumulation keeps: alphanumeric but not purely numeric. */
  predicate AddressLike(t: string)
  {
    !NumericText(t) && AlnumText(t)
  }

  /**
   * Purely numeric text is alphanumeric too, so a unit is address-like exactly
   * when it is alphanumeric and holds at least one ASCII letter.
   */
  lemma AddressLikeMeaning(t: string)
    ensures NumericText(t) ==> AlnumText(t)
    ensures AddressLike(t) <==>
              AlnumText(t) && exists i :: 0 <= i < |t| && ('a' <= t[i] <= 'z' || 'A' <= t[i] <= 'Z')
  {
    if AlnumText(t) && !NumericText(t) {
      var i :| 0 <= i < |t| && !(Digit(t[i]) || t[i] == ',' || t[i] == '.' || JavaSpace(t[i]));
      assert 'a' <= t[i] <= 'z' || 'A' <= t[i] <= 'Z';
    }
  }

  /** The character class `[a-z0-9]` (case-sensitive). */
  predicate LowerAlnum(c: char)
  {
    'a' <= c <= 'z' || Digit(c)
  }

  /** `Pattern.compile("[a-z0-9]" + key).matcher(text).find()`, the key read literally. */
  predicate AlnumBefore(text: string, key: string)
  {
    exists i | 0 <= i < |text| :: LowerAlnum(text[i]) && OccursAt(text, key, i + 1)
  }

  /** `Pattern.compile(key + "[a-z0-9]").matcher(text).find()`, the key read literally. */
  predicate AlnumAfter(text: string, key: string)
  {
    exists i | 0 <= i && i + |key| < |text| :: OccursAt(text, key, i) && LowerAlnum(text[i + |key|])
  }

  /** The state codes of the Australian postal-code table, in table order. */
  const AustralianStates: seq<string> := ["VIC", "NSW", "QLD", "NT", "WA", "SA", "TAS"]

  /** `POSTAL_CODES.optJSONArray(country)`: only Australia has a table. */
  function PostalCodes(country: string): (r: Option<seq<string>>)
    ensures r.Some? <==> country == "Australia"
  {
    if country == "Australia" then Some(AustralianStates) else None
  }

  /**
   * `code`, then `w` spaces, then the four characters that close `body`
   * (which `PostalAtEnd` requires to be digits).
   */
  predicate CodeThenSpaces(code: string, body: string, w: int)
    requires 0 <= w <= |body| - 4 - |code|
  {
    (forall i | |body| - 4 - w <= i < |body| - 4 :: JavaSpace(body[i]))
    && body[|body| - 4 - w - |code|..|body| - 4 - w] == code
  }

  /** `code[\s]*[0-9]{4}` matched so that the four digits close `body`. */
  predicate PostalAtEnd(code: string, body: string)
  {
    |body| >= 4 + |code|
    && (forall i | |body| - 4 <= i < |body| :: Digit(body[i]))
    && exists w | 0 <= w <= |body| - 4 - |code| :: CodeThenSpaces(code, body, w)
  }

  /** Java's line terminators, before which a final `$` may also match. */
  predicate LineTerminator(c: char)
  {
    c == '\n' || c == '\r' || c == '\U{0085}' || c == '\U{2028}' || c == '\U{2029}'
  }

  /**
   * `Pattern.compile(code + "[\\s]*[0-9]{4}$").matcher(t).find()`: `$` matches at
   * the end of the input or just before a final line terminator (or "\r\n").
   */
  predicate PostalMatch(code: string, t: string)
  {
    || PostalAtEnd(code, t)
    || (|t| >= 1 && LineTerminator(t[|t| - 1]) && PostalAtEnd(code, t[..|t| - 1]))
    || (|t| >= 2 && t[|t| - 2..] == "\r\n" && PostalAtEnd(code, t[..|t| - 2]))
  }

  /** The code of a postal match closed by `body` lies inside `body`. */
  lemma PostalAtEndOccurs(code: string, body: string) returns (i: nat)
    requires PostalAtEnd(code, body)
    ensures OccursAt(body, code, i)
  {
    var w :| 0 <= w <= |body| - 4 - |code| && CodeThenSpaces(code, body, w);
    i := |body| - 4 - w - |code|;
  }

  /** A unit the postal pattern of `code` matches contains `code`. */
  lemma PostalMatchContainsCode(code: string, t: string)
    requires PostalMatch(code, t)
    ensures exists i :: OccursAt(t, code, i)
  {
    if PostalAtEnd(code, t) {
      var i := PostalAtEndOccurs(code, t);
    } else {
      var n := if |t| >= 1 && LineTerminator(t[|t| - 1]) && PostalAtEnd(code, t[..|t| - 1]) then |t| - 1 else |t| - 2;
      var i := PostalAtEndOccurs(code, t[..n]);
      OccursInSlice(t, code, 0, n, i);
    }
  }

  /** `code`, then any Java spaces, then four digits at the very end: the postal pattern matches. */
  lemma PostalMatchAtEnd(code: string, before: string, spaces: string, digits: string)
    requires forall i :: 0 <= i < |spaces| ==> JavaSpace(spaces[i])
    requires |digits| == 4 && forall i :: 0 <= i < 4 ==> Digit(digits[i])
    ensures PostalMatch(code, before + code + spaces + digits)
  {
    var body := before + code + spaces + digits;
    var w := |spaces|;
    assert body[|body| - 4..] == digits;
    assert body[|body| - 4 - w..|body| - 4] == spaces;
    assert body[|body| - 4 - w - |code|..|body| - 4 - w] == code;
    assert CodeThenSpaces(code, body, w);
  }
}
