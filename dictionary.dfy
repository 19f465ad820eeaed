/**
 * One extraction field (`OCRDictionary`): its configuration, the keyword
 * test, the validation of candidate values against the field's patterns, and
 * the persisted result that only ever grows longer.
 */
module Dictionary {
  import opened Wrappers
  import opened Strings
  import opened Patterns

  /** What the display shows for a field without a value. */
  const DefaultValue: string := "---"

  /** Keywords of at most this many characters must stand as whole tokens. */
  const ShortKeywordLength: nat := 10

  /** The static part of a field, fixed when the capture session starts. */
  datatype Config = Config(name: string, mandatory: bool, keywords: seq<string>, patterns: Option<seq<string>>)

  /** The part of a field that persists from frame to frame. */
  datatype Persisted = Persisted(resKeyword: string, resValue: string, indexOfPattern: int)

  /** The result of validating a candidate: the matched text and the pattern it came from (-1: none). */
  datatype Validated = Validated(value: string, patternIndex: int)

  /** The configured pattern string: absent when empty, otherwise split on "&&". */
  function PatternsOf(raw: string): (r: Option<seq<string>>)
    ensures r.None? <==> raw == ""
    ensures r.Some? ==> r.value == SplitPatterns(raw)
    ensures r.Some? && r.value != [] ==> r.value[|r.value| - 1] != ""
    ensures r.Some? ==> forall i :: 0 <= i < |r.value| ==> !Contains(r.value[i], PatternDelimiter)
    ensures r.Some? && KeepsAllPieces(raw) ==> Join(PatternDelimiter, r.value) == raw
    ensures r.Some? && !EndsWithDelimiter(raw) ==> Join(PatternDelimiter, r.value) == raw
  {
    if raw == "" then None
    else if EndsWithDelimiter(raw) then
      if KeepsAllPieces(raw) then SplitPatternsRoundTrip(raw); Some(SplitPatterns(raw))
      else Some(SplitPatterns(raw))
    else
      KeepsAllPiecesUnlessEnds(raw);
      SplitPatternsRoundTrip(raw);
      Some(SplitPatterns(raw))
  }

  /** `hasPatterns()`: a non-null, non-empty pattern list. */
  predicate HasPatterns(patterns: Option<seq<string>>)
  {
    patterns.Some? && |patterns.value| > 0
  }

  /**
   * `hasPatterns()` on a configured field: never for an empty pattern string,
   * always when Java's split keeps every piece of a non-empty one, and never
   * for "&&" alone, which splits into nothing.
   */
  lemma HasPatternsOf(raw: string)
    ensures HasPatterns(PatternsOf(raw)) ==> raw != ""
    ensures raw != "" && KeepsAllPieces(raw) ==> HasPatterns(PatternsOf(raw))
    ensures !HasPatterns(PatternsOf(PatternDelimiter))
  {
    if raw != "" && KeepsAllPieces(raw) && Contains(raw, PatternDelimiter) {
      var ps := SplitPieces(raw);
      assert DropTrailingEmpty(ps) == ps;
    }
    var d := PatternDelimiter;
    assert OccursAt(d, d, 0);
    assert IndexOf(d, d) == 0;
    assert IndexOf("", d) == -1;
    assert SplitPieces(d) == ["", ""];
    assert DropTrailingEmpty(["", ""]) == DropTrailingEmpty([""]) == [];
  }

  /**
   * `checkContainKeyword(key, container)`: a case-insensitive substring test;
   * a short key must not touch a `[a-z0-9]` character in the original-case text.
   */
  predicate ContainKeyword(key: string, container: string)
  {
    var sKey := Lower(key);
    if !Contains(Lower(container), sKey) then false
    else if |sKey| > ShortKeywordLength then true
    else if AlnumBefore(container, sKey) then false
    else if AlnumAfter(container, sKey) then false
    else true
  }

  /** Every occurrence of `key` in `text` stands alone: no `[a-z0-9]` character right before or right after it. */
  ghost predicate StandsAlone(text: string, key: string)
  {
    forall i :: OccursAt(text, key, i) ==>
      && (i == 0 || !LowerAlnum(text[i - 1]))
      && (i + |key| == |text| || !LowerAlnum(text[i + |key|]))
  }

  /**
   * What `checkContainKeyword` decides: the lower-cased text contains the
   * lower-cased key, and a key of at most ten characters must also stand
   * alone in the original-case text.
   */
  lemma ContainKeywordMeaning(key: string, container: string)
    ensures ContainKeyword(key, container) ==> Contains(Lower(container), Lower(key))
    ensures |key| > ShortKeywordLength ==>
              (ContainKeyword(key, container) <==> Contains(Lower(container), Lower(key)))
    ensures |key| <= ShortKeywordLength ==>
              (ContainKeyword(key, container) <==>
                 Contains(Lower(container), Lower(key)) && StandsAlone(container, Lower(key)))
  {
    var k := Lower(key);
    if AlnumBefore(container, k) {
      var i :| 0 <= i < |container| && LowerAlnum(container[i]) && OccursAt(container, k, i + 1);
      assert !(i + 1 == 0 || !LowerAlnum(container[i + 1 - 1]));
    } else if AlnumAfter(container, k) {
      var i :| 0 <= i && i + |k| < |container| && OccursAt(container, k, i) && LowerAlnum(container[i + |k|]);
      assert !(i + |k| == |container| || !LowerAlnum(container[i + |k|]));
    } else {
      forall i | OccursAt(container, k, i)
        ensures i == 0 || !LowerAlnum(container[i - 1])
        ensures i + |k| == |container| || !LowerAlnum(container[i + |k|])
      {
        if i > 0 && LowerAlnum(container[i - 1]) {
          assert false;
        }
        if i + |k| != |container| && LowerAlnum(container[i + |k|]) {
          assert false;
        }
      }
    }
  }

  /**
   * The boundary test runs on the original-case text with the lower-cased key,
   * so a short key inside a capitalised word passes: "to" is rejected in
   * "total due" ...
   */
  lemma ShortKeyRejectedInWord()
    ensures !ContainKeyword("to", "total due")
  {
    var t := "total due";
    assert Lower("to") == "to";
    assert OccursAt(t, "to", 0) && LowerAlnum(t[2]);
    assert AlnumAfter(t, "to");
  }

  /** ... but accepted in "Total due", where no lower-case "to" occurs. */
  lemma ShortKeyAcceptedInCapitalisedWord()
    ensures ContainKeyword("to", "Total due")
  {
    var t := "Total due";
    assert Lower("to") == "to";
    assert Lower(t) == "total due";
    ContainsAt(Lower(t), "to", 0);
    forall k | 0 <= k ensures !OccursAt(t, "to", k) {
      if k == 2 {
        Mismatch(t, "to", k, 1);
      } else if k < |t| - 1 {
        Mismatch(t, "to", k, 0);
      }
    }
  }

  /** The search behind `getIndexKeywords`, from keyword `i` on. */
  function IndexKeywordsFrom(keywords: seq<string>, s: string, i: nat): (r: int)
    requires i <= |keywords|
    ensures r == -1 || (i <= r < |keywords| && ContainKeyword(keywords[r], s))
    ensures r >= 0 ==> forall k :: i <= k < r ==> !ContainKeyword(keywords[k], s)
    ensures r == -1 ==> forall k :: i <= k < |keywords| ==> !ContainKeyword(keywords[k], s)
    decreases |keywords| - i
  {
    if i == |keywords| then -1
    else if ContainKeyword(keywords[i], s) then i
    else IndexKeywordsFrom(keywords, s, i + 1)
  }

  /** `getIndexKeywords(s)`: the first keyword `s` contains, or -1. */
  function IndexKeywords(keywords: seq<string>, s: string): (r: int)
    ensures -1 <= r < |keywords|
    ensures r >= 0 ==> ContainKeyword(keywords[r], s)
    ensures r >= 0 ==> forall k :: 0 <= k < r ==> !ContainKeyword(keywords[k], s)
    ensures r == -1 <==> forall k :: 0 <= k < |keywords| ==> !ContainKeyword(keywords[k], s)
  {
    IndexKeywordsFrom(keywords, s, 0)
  }

  /**
   * The loop of `checkMatchValuePattern` over the patterns: the longest first
   * match so far, replaced only by a strictly longer one, and its pattern index
   * (`("", -1)` while nothing has been replaced).
   */
  function Longest(ps: seq<string>, m: Matcher, s: string): (r: Validated)
    ensures -1 <= r.patternIndex < |ps|
    ensures r.patternIndex == -1 <==> r.value == ""
    ensures r.patternIndex >= 0 ==> FirstMatch(m, ps[r.patternIndex], s) == Some(r.value)
    ensures forall i :: 0 <= i < |ps| && FirstMatch(m, ps[i], s).Some? ==>
              |FirstMatch(m, ps[i], s).value| <= |r.value|
    ensures forall i :: 0 <= i < r.patternIndex && FirstMatch(m, ps[i], s).Some? ==>
              |FirstMatch(m, ps[i], s).value| < |r.value|
  {
    if ps == [] then Validated("", -1)
    else
      var init := ps[..|ps| - 1];
      assert forall i :: 0 <= i < |init| ==> init[i] == ps[i];
      var prev := Longest(init, m, s);
      match FirstMatch(m, ps[|ps| - 1], s)
      case Some(x) => if |x| > |prev.value| then Validated(x, |ps| - 1) else prev
      case None => prev
  }

  /**
   * `checkMatchValuePattern(s)`: null for an empty candidate; the candidate
   * itself when the field has no patterns; otherwise the longest non-empty
   * first match over the patterns, ties going to the lowest pattern index.
   */
  function MatchValuePattern(patterns: Option<seq<string>>, m: Matcher, s: string): (r: Option<Validated>)
    ensures r.Some? ==> r.value.value != ""
    ensures r.Some? ==> |r.value.value| <= |s| && exists i :: OccursAt(s, r.value.value, i)
    ensures !HasPatterns(patterns) ==> r == if s == "" then None else Some(Validated(s, -1))
    ensures HasPatterns(patterns) ==> var ps := patterns.value;
      && (r.Some? <==> s != "" && exists i :: 0 <= i < |ps| && FirstMatch(m, ps[i], s).Some? && FirstMatch(m, ps[i], s).value != "")
      && (r.Some? ==> 0 <= r.value.patternIndex < |ps| && FirstMatch(m, ps[r.value.patternIndex], s) == Some(r.value.value))
      && (r.Some? ==> forall i :: 0 <= i < |ps| && FirstMatch(m, ps[i], s).Some? ==>
                        |FirstMatch(m, ps[i], s).value| <= |r.value.value|)
      && (r.Some? ==> forall i :: 0 <= i < r.value.patternIndex && FirstMatch(m, ps[i], s).Some? ==>
                        |FirstMatch(m, ps[i], s).value| < |r.value.value|)
  {
    if s == "" then None
    else if !HasPatterns(patterns) then
      assert OccursAt(s, s, 0);
      Some(Validated(s, -1))
    else
      var best := Longest(patterns.value, m, s);
      if best.patternIndex >= 0 then Some(best) else None
  }

  /**
   * `setValueIfAcceptable(s)` on the persisted state: a validated value is taken
   * when the field has none yet, or when it is strictly longer than the current one.
   */
  function Accept(patterns: Option<seq<string>>, m: Matcher, res: Persisted, s: string): (r: (Persisted, bool))
    ensures r.0.resKeyword == res.resKeyword
    ensures |r.0.resValue| >= |res.resValue|
    ensures r.1 <==> r.0.resValue != res.resValue
    ensures !r.1 ==> r.0 == res
    ensures r.1 <==> MatchValuePattern(patterns, m, s).Some?
                     && (res.resValue == "" || |MatchValuePattern(patterns, m, s).value.value| > |res.resValue|)
    ensures r.1 ==> (r.0.resValue == MatchValuePattern(patterns, m, s).value.value
                     && r.0.indexOfPattern == MatchValuePattern(patterns, m, s).value.patternIndex)
  {
    match MatchValuePattern(patterns, m, s)
    case None => (res, false)
    case Some(v) =>
      if res.resValue == "" || |v.value| > |res.resValue| then
        (res.(resValue := v.value, indexOfPattern := v.patternIndex), true)
      else (res, false)
  }

  /**
   * `isSetValue()` after `setValueIfAcceptable`: an accepted candidate sets the
   * field, and a field that is set stays set whatever the candidate.
   */
  lemma AcceptSetsValue(patterns: Option<seq<string>>, m: Matcher, res: Persisted, s: string)
    ensures Accept(patterns, m, res, s).1 ==> Accept(patterns, m, res, s).0.resValue != ""
    ensures res.resValue != "" ==> Accept(patterns, m, res, s).0.resValue != ""
  {
    var v := MatchValuePattern(patterns, m, s);
    if v.Some? && HasPatterns(patterns) {
      var ps := patterns.value;
      var i :| 0 <= i < |ps| && FirstMatch(m, ps[i], s).Some? && FirstMatch(m, ps[i], s).value != "";
      assert |FirstMatch(m, ps[i], s).value| <= |v.value.value|;
    }
  }

  /** The pattern index a field may record: -1, or an index into its pattern list. */
  predicate PatternIndexOk(patterns: Option<seq<string>>, index: int)
  {
    index == -1 || (patterns.Some? && 0 <= index < |patterns.value|)
  }

  /** `OCRDictionary`: a field's configuration and its persisted result. */
  class OcrDictionary {
    const name: string
    const mandatory: bool
    const keywords: seq<string>
    const patterns: Option<seq<string>>
    var resKeyword: string
    var resValue: string
    var indexOfPattern: int

    ghost predicate Valid()
      reads this
    {
      PatternIndexOk(patterns, indexOfPattern)
    }

    /** The field as configured (name, keywords, "&&"-split patterns) with nothing resolved yet. */
    constructor (name: string, mandatory: bool, keywords: seq<string>, patternsRaw: string)
      ensures Valid()
      ensures Configuration() == Config(name, mandatory, keywords, PatternsOf(patternsRaw))
      ensures State() == Persisted("", "", -1)
    {
      this.name := name;
      this.mandatory := mandatory;
      this.keywords := keywords;
      this.patterns := PatternsOf(patternsRaw);
      resKeyword := "";
      resValue := "";
      indexOfPattern := -1;
    }

    function Configuration(): Config
    {
      Config(name, mandatory, keywords, patterns)
    }

    function State(): Persisted
      reads this
    {
      Persisted(resKeyword, resValue, indexOfPattern)
    }

    /** `isSetValue()`: a value has been accepted. */
    predicate IsSetValue()
      reads this
    {
      resValue != ""
    }

    /** `getDisplayValue()`: the value, or the placeholder while there is none. */
    function DisplayValue(): (r: string)
      reads this
      ensures r != ""
      ensures IsSetValue() ==> r == resValue
      ensures !IsSetValue() ==> r == DefaultValue
    {
      if resValue == "" then DefaultValue else resValue
    }

    /** `getIndexKeywords(s)`: the keyword loop, stopping at the first keyword `s` contains. */
    method GetIndexKeywords(s: string) returns (r: int)
      ensures r == IndexKeywords(keywords, s)
    {
      var i := 0;
      while i < |keywords|
        invariant 0 <= i <= |keywords|
        invariant IndexKeywordsFrom(keywords, s, 0) == IndexKeywordsFrom(keywords, s, i)
      {
        if ContainKeyword(keywords[i], s) {
          return i;
        }
        i := i + 1;
      }
      return -1;
    }

    /**
     * `checkMatchValuePattern(s)`: the pattern loop keeps the longest first
     * match so far and the index of its pattern.
     */
    method CheckMatchValuePattern(m: Matcher, s: string) returns (r: Option<Validated>)
      ensures r == MatchValuePattern(patterns, m, s)
    {
      if s == "" {
        return None;
      }
      var res, num := "", -1;
      var result := false;
      if !HasPatterns(patterns) {
        res, num, result := s, -1, true;
      } else {
        var ps := patterns.value;
        for i := 0 to |ps|
          invariant Validated(res, num) == Longest(ps[..i], m, s)
          invariant result <==> num >= 0
        {
          assert ps[..i + 1][..i] == ps[..i];
          var found := FirstMatch(m, ps[i], s);
          if found.Some? && |found.value| > |res| {
            res, num, result := found.value, i, true;
          }
        }
        assert ps[..|ps|] == ps;
      }
      if result {
        return Some(Validated(res, num));
      }
      return None;
    }

    /** `setValueIfAcceptable(s)`. */
    method SetValueIfAcceptable(m: Matcher, s: string) returns (accepted: bool)
      requires Valid()
      modifies this
      ensures Valid()
      ensures (State(), accepted) == Accept(patterns, m, old(State()), s)
      ensures resKeyword == old(resKeyword)
      ensures |resValue| >= |old(resValue)|
      ensures accepted <==> resValue != old(resValue)
      ensures accepted || old(IsSetValue()) ==> IsSetValue()
    {
      var result := CheckMatchValuePattern(m, s);
      if result.None? {
        return false;
      }
      var value, num := result.value.value, result.value.patternIndex;
      if IsSetValue() {
        if |value| > |resValue| {
          resValue, indexOfPattern := value, num;
          return true;
        }
      } else {
        resValue, indexOfPattern := value, num;
        return true;
      }
      return false;
    }
  }
}
