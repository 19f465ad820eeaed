/**
 * The string predicates that `OcrDetectorProcessor` keeps from its first,
 * bill-specific extractor: bill phrases, month names and dollar amounts.
 */
module Legacy {
  import opened Wrappers
  import opened Strings
  import opened Geometry

  /** The bill phrases `match_index` and `check_text` look for, in order. */
  const BillPhrases: seq<string> :=
    ["due date", "simply pay by", "bill issued", "total due", "total amount due",
     "total amount due with discount", "only pay"]

  /** The month abbreviations `check_month` looks for. */
  const Months: seq<string> :=
    ["jan", "feb", "mar", "apr", "may", "jun", "jul", "aug", "sep", "oct", "nov", "dec"]

  /** The first phrase, from `i` on, that `t` contains; -1 if none. */
  function FirstContained(t: string, phrases: seq<string>, i: nat): (r: int)
    requires i <= |phrases|
    ensures r == -1 || (i <= r < |phrases| && Contains(t, phrases[r]))
    ensures forall k :: i <= k < |phrases| && (r == -1 || k < r) ==> !Contains(t, phrases[k])
    decreases |phrases| - i
  {
    if i == |phrases| then -1
    else if Contains(t, phrases[i]) then i
    else FirstContained(t, phrases, i + 1)
  }

  /** The company line: "Pty" and "ABN" both occur in the trimmed text, case-sensitively. */
  predicate CompanyLine(s: string)
  {
    Contains(Trim(s), "Pty") && Contains(Trim(s), "ABN")
  }

  /**
   * `match_index(s)`: one plus the position of the first bill phrase the
   * lower-cased text contains, else 0 for a company line, else -1.
   */
  function MatchIndex(s: string): (r: int)
    ensures -1 <= r <= |BillPhrases|
    ensures r >= 1 ==> Contains(Lower(s), BillPhrases[r - 1])
                       && forall k :: 0 <= k < r - 1 ==> !Contains(Lower(s), BillPhrases[k])
    ensures r <= 0 <==> forall k :: 0 <= k < |BillPhrases| ==> !Contains(Lower(s), BillPhrases[k])
    ensures r == 0 <==> r <= 0 && CompanyLine(s)
  {
    var i := FirstContained(Lower(s), BillPhrases, 0);
    if i >= 0 then i + 1
    else if CompanyLine(s) then 0
    else -1
  }

  /** `check_text(s)`: the trimmed, lower-cased text contains a bill phrase, or it is a company line. */
  predicate CheckText(s: string)
  {
    FirstContained(Lower(Trim(s)), BillPhrases, 0) >= 0 || CompanyLine(s)
  }

  /**
   * `match_index` never answers 6: any text containing "total amount due with
   * discount" contains "total amount due", which is tested first.
   */
  lemma {:induction false} MatchIndexNeverSix(s: string)
    ensures MatchIndex(s) != 6
  {
    if MatchIndex(s) == 6 {
      assert BillPhrases[5][..|BillPhrases[4]|] == BillPhrases[4];
      ContainsPrefix(Lower(s), BillPhrases[5], BillPhrases[4]);
      assert false;
    }
  }

  /** `check_text` and `match_index` agree, although only one of them trims. */
  lemma {:induction false} CheckTextIffMatchIndex(s: string)
    ensures CheckText(s) <==> MatchIndex(s) >= 0
  {
    PhrasesVisible();
    forall k | 0 <= k < |BillPhrases|
      ensures Contains(Lower(Trim(s)), BillPhrases[k]) <==> Contains(Lower(s), BillPhrases[k])
    {
      ContainsTrimmed(s, BillPhrases[k]);
    }
    SameFirstContained(Lower(Trim(s)), Lower(s), BillPhrases, 0);
  }

  /** Every bill phrase starts and ends with a visible character. */
  lemma PhrasesVisible()
    ensures forall k :: 0 <= k < |BillPhrases| ==>
              BillPhrases[k] != [] && !Blank(BillPhrases[k][0]) && !Blank(BillPhrases[k][|BillPhrases[k]| - 1])
  {
  }

  /** Two texts that contain the same phrases find one of them alike. */
  lemma {:induction false} SameFirstContained(t1: string, t2: string, phrases: seq<string>, i: nat)
    requires i <= |phrases|
    requires forall k :: i <= k < |phrases| ==> (Contains(t1, phrases[k]) <==> Contains(t2, phrases[k]))
    ensures FirstContained(t1, phrases, i) == FirstContained(t2, phrases, i)
    decreases |phrases| - i
  {
    if i < |phrases| {
      SameFirstContained(t1, t2, phrases, i + 1);
    }
  }

  /** `check_month(s)`: the trimmed, lower-cased text contains a month abbreviation. */
  predicate CheckMonth(s: string)
  {
    FirstContained(Lower(Trim(s)), Months, 0) >= 0
  }

  /** Every month abbreviation starts and ends with a visible character. */
  lemma MonthsVisible()
    ensures forall k :: 0 <= k < |Months| ==>
              Months[k] != [] && !Blank(Months[k][0]) && !Blank(Months[k][|Months[k]| - 1])
  {
  }

  /** Trimming does not matter to `check_month`: it holds iff the lower-cased text contains a month abbreviation. */
  lemma {:induction false} CheckMonthUntrimmed(s: string)
    ensures CheckMonth(s) <==> exists k :: 0 <= k < |Months| && Contains(Lower(s), Months[k])
  {
    MonthsVisible();
    forall k | 0 <= k < |Months|
      ensures Contains(Lower(Trim(s)), Months[k]) <==> Contains(Lower(s), Months[k])
    {
      ContainsTrimmed(s, Months[k]);
    }
  }

  /**
   * `check_amount(s)`: whether the trimmed text starts with "$"; None where
   * Java's `substring(0, 1)` of an all-blank text throws. The answer is about
   * the first visible character of `s`.
   */
  function CheckAmount(s: string): Option<bool>
  {
    var t := Trim(s);
    if t == "" then None else Some(t[0] == '$')
  }

  /** `check_amount` throws exactly on an all-blank text and accepts exactly a text whose first visible character is "$". */
  lemma CheckAmountMeaning(s: string)
    ensures CheckAmount(s).None? <==> forall i :: 0 <= i < |s| ==> Blank(s[i])
    ensures CheckAmount(s) == Some(true) <==>
              exists i :: 0 <= i < |s| && s[i] == '$' && forall j :: 0 <= j < i ==> Blank(s[j])
  {
    var t := Trim(s);
    if t != "" {
      assert s[LeadingBlanks(s)] == t[0];
    }
  }

  /** The first index the legacy scans look at: the one after `count`. */
  function After(count: int): nat
  {
    if count < 0 then 0 else count + 1
  }

  /** The first unit, from `from` on, whose text names a month; -1 if none. */
  function MonthIndexFrom(us: seq<TextUnit>, from: nat): (r: int)
    ensures r == -1 || (from <= r < |us| && CheckMonth(us[r].value))
    ensures forall j :: from <= j < |us| && (r == -1 || j < r) ==> !CheckMonth(us[j].value)
    decreases |us| - from
  {
    if from >= |us| then -1
    else if CheckMonth(us[from].value) then from
    else MonthIndexFrom(us, from + 1)
  }

  /** The first position the counting loop of `month_string` has reached. */
  function Reached(idx: nat, count: int): nat
  {
    if idx <= After(count) then After(count) else idx
  }

  /** `month_string(units, count)`: the first unit after position `count` that names a month, or "". */
  function MonthString(us: seq<TextUnit>, count: int): string
  {
    var j := MonthIndexFrom(us, After(count));
    if j < 0 then "" else us[j].value
  }

  /** What `month_string` answers: "" exactly when no unit after `count` names a month, else the first that does. */
  lemma MonthStringMeaning(us: seq<TextUnit>, count: int)
    ensures var r := MonthString(us, count);
      && (r != "" <==> exists j :: After(count) <= j < |us| && CheckMonth(us[j].value))
      && (r != "" ==> exists j :: After(count) <= j < |us| && us[j].value == r && CheckMonth(r)
                                 && forall j' :: After(count) <= j' < j ==> !CheckMonth(us[j'].value))
  {
    var j := MonthIndexFrom(us, After(count));
    if j >= 0 {
      MonthNamed(us[j].value);
    }
  }

  /** A text that names a month is not empty. */
  lemma MonthNamed(v: string)
    requires CheckMonth(v)
    ensures v != ""
  {
    var t := Lower(Trim(v));
    var k := FirstContained(t, Months, 0);
    assert OccursAt(t, Months[k], IndexOf(t, Months[k]));
  }

  /** The first unit at or after `from` that is not a plain non-amount (past the end: none). */
  function AmountIndex(us: seq<TextUnit>, from: nat): (j: nat)
    ensures from <= j
    ensures j < |us| ==> CheckAmount(us[j].value) != Some(false)
    ensures forall j' :: from <= j' < j && j' < |us| ==> CheckAmount(us[j'].value) == Some(false)
    decreases |us| - from
  {
    if from >= |us| || CheckAmount(us[from].value) != Some(false) then from
    else AmountIndex(us, from + 1)
  }

  /** Any unit that comes first among those that are not plain non-amounts is the one `AmountIndex` finds. */
  lemma AmountIndexIsFirst(us: seq<TextUnit>, from: nat, j0: nat)
    requires from <= j0 < |us| && CheckAmount(us[j0].value) != Some(false)
    requires forall j' :: from <= j' < j0 ==> CheckAmount(us[j'].value) == Some(false)
    ensures AmountIndex(us, from) == j0
  {
  }

  /** When every unit from `from` on is a plain non-amount, `AmountIndex` runs past the end. */
  lemma AmountIndexPast(us: seq<TextUnit>, from: nat)
    requires forall j :: from <= j < |us| ==> CheckAmount(us[j].value) == Some(false)
    ensures AmountIndex(us, from) >= |us|
  {
  }

  /**
   * `amount_string(units, count)`: the first unit after `count` whose trimmed
   * text starts with "$", "" when there is none, and None when an all-blank
   * unit comes first (the exception of `check_amount`).
   */
  function AmountString(us: seq<TextUnit>, count: int): Option<string>
  {
    var j := AmountIndex(us, After(count));
    if j >= |us| then Some("")
    else if CheckAmount(us[j].value).None? then None
    else Some(us[j].value)
  }

  /** What `amount_string` answers, in terms of the units it passes over. */
  lemma AmountStringMeaning(us: seq<TextUnit>, count: int)
    ensures var r, from := AmountString(us, count), After(count);
      && (r.None? <==> exists j :: from <= j < |us| && CheckAmount(us[j].value).None?
                                   && forall j' :: from <= j' < j ==> CheckAmount(us[j'].value) == Some(false))
      && (r.Some? && r.value != "" ==>
            exists j :: from <= j < |us| && us[j].value == r.value && CheckAmount(r.value) == Some(true)
                        && forall j' :: from <= j' < j ==> CheckAmount(us[j'].value) == Some(false))
      && (r == Some("") ==> forall j :: from <= j < |us| ==> CheckAmount(us[j].value) == Some(false))
  {
    var from := After(count);
    forall j0 | from <= j0 < |us| && CheckAmount(us[j0].value) != Some(false)
                && (forall j' :: from <= j' < j0 ==> CheckAmount(us[j'].value) == Some(false))
      ensures j0 == AmountIndex(us, from)
    {
      AmountIndexIsFirst(us, from, j0);
    }
  }

  /** One step of the search for a month. */
  lemma MonthIndexAt(us: seq<TextUnit>, idx: nat)
    requires idx < |us|
    ensures MonthIndexFrom(us, idx) == if CheckMonth(us[idx].value) then idx else MonthIndexFrom(us, idx + 1)
  {
  }

  /** `month_string(units, count)`: the counting loop skips units up to `count`. */
  method FindMonthString(us: seq<TextUnit>, count: int) returns (r: string)
    ensures r == MonthString(us, count)
  {
    var no := -1;
    for idx := 0 to |us|
      invariant no == idx - 1
      invariant MonthIndexFrom(us, After(count)) == MonthIndexFrom(us, Reached(idx, count))
    {
      no := no + 1;
      if no <= count {
        continue;
      }
      assert Reached(idx, count) == idx && Reached(idx + 1, count) == idx + 1;
      var blockText := us[idx].value;
      MonthIndexAt(us, idx);
      if CheckMonth(blockText) {
        return blockText;
      }
    }
    assert MonthIndexFrom(us, Reached(|us|, count)) == -1;
    return "";
  }

  /**
   * `amount_string(units, count)`: the same loop with `check_amount`; None
   * where `check_amount` throws on an all-blank unit.
   */
  method FindAmountString(us: seq<TextUnit>, count: int) returns (r: Option<string>)
    ensures r == AmountString(us, count)
  {
    var no := -1;
    for idx := 0 to |us|
      invariant no == idx - 1
      invariant forall j :: After(count) <= j < idx ==> CheckAmount(us[j].value) == Some(false)
    {
      no := no + 1;
      if no <= count {
        continue;
      }
      var blockText := us[idx].value;
      var amount := CheckAmount(blockText);
      if amount != Some(false) {
        AmountIndexIsFirst(us, After(count), idx);
        if amount.None? {
          return None;
        }
        return Some(blockText);
      }
    }
    AmountIndexPast(us, After(count));
    return Some("");
  }

  /** `match_index(s)`: the phrase loop, then the company-line test. */
  method FindMatchIndex(s: string) returns (r: int)
    ensures r == MatchIndex(s)
  {
    var lower := Lower(s);
    for i := 0 to |BillPhrases|
      invariant FirstContained(lower, BillPhrases, 0) == FirstContained(lower, BillPhrases, i)
    {
      if Contains(lower, BillPhrases[i]) {
        return i + 1;
      }
    }
    if Contains(Trim(s), "Pty") && Contains(Trim(s), "ABN") {
      return 0;
    }
    return -1;
  }
}
