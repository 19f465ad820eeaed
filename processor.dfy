/**
 * `OcrDetectorProcessor`: the detection record of every configured field,
 * updated in place frame by frame. Each method is proved against the value
 * model of a frame in module Detection.
 */
module Processor {
  import opened Wrappers
  import opened Strings
  import opened Patterns
  import opened Geometry
  import opened Dictionary
  import opened Detection

  /** The nested pattern/unit loops of `checkServiceAddressEx`: the first code with a matching unit decides. */
  method FindPostalUnit(codes: seq<string>, block: Block) returns (r: Option<TextUnit>)
    ensures r == FirstPostalUnit(codes, block)
  {
    for i := 0 to |codes|
      invariant FirstPostalUnit(codes, block) == FirstPostalUnit(codes[i..], block)
    {
      for j := 0 to |block|
        invariant FirstUnitMatching(codes[i], block) == FirstUnitMatching(codes[i], block[j..])
      {
        if PostalMatch(codes[i], block[j].value) {
          return Some(block[j]);
        }
        assert block[j..][1..] == block[j + 1..];
      }
      assert codes[i..][1..] == codes[i + 1..];
    }
    return None;
  }

  /** The `builder` loop of `find_value_in_text` for a service address found by its postal code. */
  method AssembleAddress(block: Block, top: int) returns (value: string)
    ensures value == AddressText(block, top)
  {
    var builder: seq<string> := [];
    var j := 0;
    var stopped := false;
    while j < |block| && !stopped
      invariant 0 <= j <= |block|
      invariant builder == AddressRun(block[..j])
      invariant !stopped ==> forall j' :: 0 <= j' < j ==> block[j'].box.top != top
      invariant stopped ==> 0 < j && block[j - 1].box.top == top
                            && forall j' :: 0 <= j' < j - 1 ==> block[j'].box.top != top
    {
      var text := block[j];
      if NumericText(text.value) {
        builder := [];
      } else if AlnumText(text.value) {
        builder := builder + [text.value];
      } else {
        builder := [];
      }
      assert block[..j + 1][..j] == block[..j];
      stopped := text.box.top == top;
      j := j + 1;
    }
    assert StopCount(block, top) == j;
    value := Join(", ", builder);
  }

  /** The keyword loop of `find_value_in_text`: the first keyword whose trailing text validates, and that text. */
  method FindInlineValue(keywords: seq<string>, patterns: Option<seq<string>>, m: Matcher, text: string)
    returns (i: int, value: string)
    ensures i == FirstInlineKey(keywords, patterns, m, text)
    ensures i >= 0 ==> AfterKeyword(text, keywords[i]) == Some(value)
  {
    ghost var flags := InlineFlags(keywords, patterns, m, text);
    i := 0;
    while i < |keywords|
      invariant 0 <= i <= |keywords|
      invariant FirstSet(flags, 0) == FirstSet(flags, i)
    {
      if InlineValidates(text, keywords[i], patterns, m) {
        assert flags[i];
        InlineValue(text, keywords[i], patterns, m);
        return i, AfterKeyword(text, keywords[i]).value;
      }
      assert !flags[i];
      i := i + 1;
    }
    return -1, "";
  }

  /**
   * The field loop of `checkServiceAddressEx(block)`: the field that takes the
   * postal hit (-1: none) and the unit that matched one of the codes of the
   * country's table `postal`. `candidates[k]` says whether field `k` is an
   * unresolved "service address" field.
   */
  method PostalTarget(candidates: seq<bool>, records: seq<Info>, postal: Option<seq<string>>, block: Block)
    returns (t: int, u: Option<TextUnit>)
    requires |candidates| == |records|
    ensures t == PostalTargetFrom(candidates, records, postal.Some?,
                                  postal.Some? && FirstPostalUnit(postal.value, block).Some?, 0)
    ensures t >= 0 ==> postal.Some? && u == FirstPostalUnit(postal.value, block)
  {
    ghost var matches := postal.Some? && FirstPostalUnit(postal.value, block).Some?;
    var k := 0;
    while k < |records|
      invariant 0 <= k <= |records|
      invariant PostalTargetFrom(candidates, records, postal.Some?, matches, 0)
                == PostalTargetFrom(candidates, records, postal.Some?, matches, k)
    {
      if candidates[k] {
        if records[k].indexOfKey >= 0 || records[k].keyBlock.Some? {
          return -1, None;
        }
        if postal.None? {
          return -1, None;
        }
        u := FindPostalUnit(postal.value, block);
        if u.Some? {
          return k, u;
        }
      }
      k := k + 1;
    }
    return -1, None;
  }

  /** The candidate collection and sort of `find_value_in_right`, as a running first minimum. */
  method NearestRight(frame: Frame, kw: Box) returns (r: Option<TextUnit>)
    ensures r == Nearest(Flatten(frame), RightOf(kw))
  {
    r := None;
    for i := 0 to |frame|
      invariant r == Nearest(Flatten(frame[..i]), RightOf(kw))
    {
      var block := frame[i];
      ghost var seen := Flatten(frame[..i]);
      assert seen + block[..0] == seen;
      for j := 0 to |block|
        invariant r == Nearest(seen + block[..j], RightOf(kw))
      {
        var text := block[j];
        NearestSnoc(seen + block[..j], text, RightOf(kw));
        assert seen + block[..j + 1] == (seen + block[..j]) + [text];
        if Abs(text.box.top - kw.top) <= RowTolerance && kw.right <= text.box.left {
          if r.None? || text.box.left < r.value.box.left {
            r := Some(text);
          }
        }
      }
      FlattenSnoc(frame, i);
      assert block[..|block|] == block;
    }
    assert frame[..|frame|] == frame;
  }

  /** The candidate collection and sort of `find_value_in_below`, as a running first minimum. */
  method NearestBelow(block: Block, kw: Box) returns (r: Option<TextUnit>)
    ensures r == Nearest(block, Below(kw))
  {
    r := None;
    for j := 0 to |block|
      invariant r == Nearest(block[..j], Below(kw))
    {
      var text := block[j];
      NearestSnoc(block[..j], text, Below(kw));
      assert block[..j + 1] == block[..j] + [text];
      if kw.top < text.box.top {
        if r.None? || text.box.top < r.value.box.top {
          r := Some(text);
        }
      }
    }
    assert block[..|block|] == block;
  }

  /** `OcrDetectorProcessor`: one detection record per configured field. */
  class OcrDetectorProcessor {
    /** The configured fields, in order. */
    const dicts: seq<OcrDictionary>
    /** `mDictInfoList`: the detection record of each field, by position. */
    const infos: array<Info>
    /** The country whose postal table the fallback uses. */
    const country: string

    ghost predicate Valid()
      reads infos, dicts
    {
      && infos.Length == |dicts|
      && (forall i, j :: 0 <= i < j < |dicts| ==> dicts[i] != dicts[j])
      && (forall k :: 0 <= k < |dicts| ==> dicts[k].Valid() && WellFormed(dicts[k].keywords, infos[k]))
    }

    function Configs(): (r: seq<Config>)
      ensures |r| == |dicts|
    {
      seq(|dicts|, k requires 0 <= k < |dicts| => dicts[k].Configuration())
    }

    function ResKeywordsNow(): (r: seq<string>)
      reads dicts
      ensures |r| == |dicts|
    {
      seq(|dicts|, k requires 0 <= k < |dicts| reads dicts => dicts[k].resKeyword)
    }

    /** Every field as the value model sees it. */
    function Fields(): (r: seq<Field>)
      reads infos, dicts
      requires infos.Length == |dicts|
    {
      seq(|dicts|, k requires 0 <= k < |dicts| reads infos, dicts =>
        Field(dicts[k].Configuration(), dicts[k].State(), infos[k]))
    }

    /** One fresh detection record per field; the postal table is the one of `country`. */
    constructor (dicts: seq<OcrDictionary>, country: string)
      requires forall i, j :: 0 <= i < j < |dicts| ==> dicts[i] != dicts[j]
      requires forall k :: 0 <= k < |dicts| ==> dicts[k].Valid()
      ensures Valid() && fresh(infos)
      ensures this.dicts == dicts && this.country == country
      ensures forall k :: 0 <= k < infos.Length ==> infos[k] == InitialInfo
    {
      this.dicts := dicts;
      this.country := country;
      infos := new Info[|dicts|](_ => InitialInfo);
    }

    /**
     * `receiveDetections`: reset every record but its keyword index, locate
     * keywords, then resolve values; the fields end up as the value model of
     * one frame says.
     */
    method ReceiveDetections(frame: Frame, m: Matcher)
      requires Valid()
      modifies infos, dicts
      ensures Valid()
      ensures Fields() == ProcessFrame(country, m, frame, old(Fields()))
    {
      ghost var before := Fields();
      ResetRecords();
      assert infos[..] == ResetInfos(before);
      assert Configs() == Detection.Configs(before);
      assert ResKeywordsNow() == Detection.ResKeywords(before);
      FindKeyword(frame);
      ghost var located := infos[..];
      assert located == Located(country, frame, before);
      FindValue(frame, m);
      ghost var after := ProcessFrame(country, m, frame, before);
      forall k | 0 <= k < |dicts| ensures Fields()[k] == after[k] {
        assert after[k] == Resolved(m, frame, before[k], located[k]);
        assert before[k].res == old(dicts[k].State());
      }
    }

    /** The reset at the start of `receiveDetections`: everything but the keyword index. */
    method ResetRecords()
      requires Valid()
      modifies infos
      ensures Valid()
      ensures forall k :: 0 <= k < infos.Length ==> infos[k] == Reset(old(infos[k]))
    {
      for i := 0 to infos.Length
        invariant forall k :: 0 <= k < i ==> infos[k] == Reset(old(infos[k]))
        invariant forall k :: i <= k < infos.Length ==> infos[k] == old(infos[k])
      {
        infos[i] := infos[i].(selected := false, valueText := None, keyBlock := None, indexInKeyBlock := -1);
      }
    }

    /** `find_keyword`: every block's units in order, then the block's postal-code fallback. */
    method FindKeyword(frame: Frame)
      requires infos.Length == |dicts|
      modifies infos
      ensures infos[..] == KeywordPass(Configs(), ResKeywordsNow(), country, frame, |frame|, old(infos[..]))
    {
      for i := 0 to |frame|
        invariant infos[..] == KeywordPass(Configs(), ResKeywordsNow(), country, frame, i, old(infos[..]))
      {
        var block := frame[i];
        ScanBlock(block);
        var hit := CheckServiceAddressEx(block);
      }
    }

    /** The unit loop of `find_keyword` for one block. */
    method ScanBlock(block: Block)
      requires infos.Length == |dicts|
      modifies infos
      ensures infos[..] == ScanUnits(Configs(), old(infos[..]), block, |block|)
    {
      for j := 0 to |block|
        invariant infos[..] == ScanUnits(Configs(), old(infos[..]), block, j)
      {
        RecordKeywordHit(block, j);
      }
    }

    /** The field loop for one unit: the first field one of whose keywords the unit contains takes the hit. */
    method RecordKeywordHit(block: Block, j: nat)
      requires infos.Length == |dicts| && j < |block|
      modifies infos
      ensures infos[..] == Detection.AssignUnit(Configs(), old(infos[..]), block, j)
    {
      var text := block[j].value;
      var k := 0;
      while k < infos.Length
        invariant 0 <= k <= infos.Length
        invariant infos[..] == old(infos[..])
        invariant forall k' :: 0 <= k' < k ==> IndexKeywords(Configs()[k'].keywords, text) < 0
      {
        var inxKey := dicts[k].GetIndexKeywords(text);
        assert Configs()[k].keywords == dicts[k].keywords;
        if inxKey > -1 {
          assert FirstFieldFrom(Configs(), text, 0) == k;
          infos[k] := infos[k].(indexOfKey := inxKey, keyBlock := Some(block), indexInKeyBlock := j);
          return;
        }
        k := k + 1;
      }
      assert FirstFieldFrom(Configs(), text, 0) == -1;
    }

    /** `checkServiceAddressEx(block)`: record the postal hit on the field the loop picks. */
    method CheckServiceAddressEx(block: Block) returns (hit: bool)
      requires infos.Length == |dicts|
      modifies infos
      ensures (infos[..], hit) == PostalCheck(Configs(), ResKeywordsNow(), country, old(infos[..]), block)
    {
      var t, u := PostalTarget(PostalCandidates(Configs(), ResKeywordsNow()), infos[..], PostalCodes(country), block);
      if t < 0 {
        return false;
      }
      infos[t] := infos[t].(keyBlock := Some(block), valueText := u);
      return true;
    }

    /** `find_value`: resolve every field that has a hit block, in order. */
    method FindValue(frame: Frame, m: Matcher)
      requires Valid()
      modifies infos, dicts
      ensures Valid()
      ensures forall k :: 0 <= k < |dicts| ==>
                (dicts[k].State(), infos[k])
                == ResolveField(dicts[k].Configuration(), m, frame, old(dicts[k].State()), old(infos[k]))
    {
      for k := 0 to |dicts|
        invariant Valid()
        invariant forall i :: 0 <= i < k ==>
                    (dicts[i].State(), infos[i])
                    == ResolveField(dicts[i].Configuration(), m, frame, old(dicts[i].State()), old(infos[i]))
        invariant forall i :: k <= i < |dicts| ==> dicts[i].State() == old(dicts[i].State()) && infos[i] == old(infos[i])
      {
        ResolveAt(k, frame, m);
      }
    }

    /** The strategy chain for field `k`: inline text, then right, then below. */
    method ResolveAt(k: nat, frame: Frame, m: Matcher)
      requires Valid() && k < |dicts|
      modifies infos, dicts[k]
      ensures Valid()
      ensures (dicts[k].State(), infos[k])
              == ResolveField(dicts[k].Configuration(), m, frame, old(dicts[k].State()), old(infos[k]))
      ensures forall i :: 0 <= i < infos.Length && i != k ==> infos[i] == old(infos[i])
    {
      if infos[k].keyBlock.None? {
        return;
      }
      var found := FindValueInText(k, m);
      if !found {
        found := FindValueInRight(k, frame, m);
      }
      if !found {
        found := FindValueInBelow(k, m);
      }
    }

    /**
     * The common tail of the strategies: record the unit, clear the value of a
     * field without keyword index when asked, offer the candidate and, once it
     * is accepted, mark the field selected and record its keyword.
     */
    method Offer(k: nat, m: Matcher, value: string, unit: TextUnit, setKeyword: bool, resetIfNoKey: bool)
      requires Valid() && k < |dicts|
      requires setKeyword ==> 0 <= infos[k].indexOfKey < |dicts[k].keywords|
      modifies infos, dicts[k]
      ensures Valid()
      ensures (dicts[k].State(), infos[k])
              == Settle(dicts[k].Configuration(), m, old(dicts[k].State()), old(infos[k]), value, unit, setKeyword, resetIfNoKey)
      ensures forall i :: 0 <= i < infos.Length && i != k ==> infos[i] == old(infos[i])
    {
      infos[k] := infos[k].(valueText := Some(unit));
      if resetIfNoKey && infos[k].indexOfKey < 0 {
        dicts[k].resValue := "";
      }
      var accepted := dicts[k].SetValueIfAcceptable(m, value);
      if accepted {
        infos[k] := infos[k].(selected := true);
        if setKeyword {
          dicts[k].resKeyword := dicts[k].keywords[infos[k].indexOfKey];
        }
      }
    }

    /** `find_value_in_text`. */
    method FindValueInText(k: nat, m: Matcher) returns (found: bool)
      requires Valid() && k < |dicts| && infos[k].keyBlock.Some?
      modifies infos, dicts[k]
      ensures Valid()
      ensures found <==> InText(dicts[k].Configuration(), m, old(dicts[k].State()), old(infos[k])).Some?
      ensures found ==> (dicts[k].State(), infos[k])
                        == InText(dicts[k].Configuration(), m, old(dicts[k].State()), old(infos[k])).value
      ensures !found ==> dicts[k].State() == old(dicts[k].State()) && infos[k] == old(infos[k])
      ensures forall i :: 0 <= i < infos.Length && i != k ==> infos[i] == old(infos[i])
    {
      var info := infos[k];
      var dict := dicts[k];
      if info.indexInKeyBlock < 0 {
        if !EqualsIgnoreCase(dict.name, ServiceAddress) || dict.resKeyword != "" {
          return false;
        }
        var block := info.keyBlock.value;
        var value := AssembleAddress(block, info.valueText.value.box.top);
        var validated := dict.CheckMatchValuePattern(m, value);
        if validated.Some? {
          Offer(k, m, value, block[0], false, false);
          return true;
        }
      } else {
        var keyword := info.keyBlock.value[info.indexInKeyBlock];
        var i, value := FindInlineValue(dict.keywords, dict.patterns, m, keyword.value);
        if i >= 0 {
          Offer(k, m, value, keyword, true, false);
          return true;
        }
      }
      return false;
    }

    /** `find_value_in_right`. */
    method FindValueInRight(k: nat, frame: Frame, m: Matcher) returns (found: bool)
      requires Valid() && k < |dicts|
      modifies infos, dicts[k]
      ensures Valid()
      ensures found <==> InRight(dicts[k].Configuration(), m, frame, old(dicts[k].State()), old(infos[k])).Some?
      ensures found ==> (dicts[k].State(), infos[k])
                        == InRight(dicts[k].Configuration(), m, frame, old(dicts[k].State()), old(infos[k])).value
      ensures !found ==> dicts[k].State() == old(dicts[k].State()) && infos[k] == old(infos[k])
      ensures forall i :: 0 <= i < infos.Length && i != k ==> infos[i] == old(infos[i])
    {
      var info := infos[k];
      if info.indexInKeyBlock < 0 {
        return false;
      }
      var keyword := info.keyBlock.value[info.indexInKeyBlock];
      var nearest := NearestRight(frame, keyword.box);
      if nearest.None? {
        return false;
      }
      var text := nearest.value;
      var validated := dicts[k].CheckMatchValuePattern(m, text.value);
      if validated.Some? {
        Offer(k, m, text.value, text, true, true);
        return true;
      }
      return false;
    }

    /** `find_value_in_below`. */
    method FindValueInBelow(k: nat, m: Matcher) returns (found: bool)
      requires Valid() && k < |dicts|
      modifies infos, dicts[k]
      ensures Valid()
      ensures found <==> InBelow(dicts[k].Configuration(), m, old(dicts[k].State()), old(infos[k])).Some?
      ensures found ==> (dicts[k].State(), infos[k])
                        == InBelow(dicts[k].Configuration(), m, old(dicts[k].State()), old(infos[k])).value
      ensures !found ==> dicts[k].State() == old(dicts[k].State()) && infos[k] == old(infos[k])
      ensures forall i :: 0 <= i < infos.Length && i != k ==> infos[i] == old(infos[i])
    {
      var info := infos[k];
      if info.indexInKeyBlock < 0 {
        return false;
      }
      if !HasPatterns(dicts[k].patterns) {
        return false;
      }
      var block := info.keyBlock.value;
      var keyword := block[info.indexInKeyBlock];
      var nearest := NearestBelow(block, keyword.box);
      if nearest.None? {
        return false;
      }
      var text := nearest.value;
      var validated := dicts[k].CheckMatchValuePattern(m, text.value);
      if validated.Some? {
        Offer(k, m, text.value, text, true, true);
        return true;
      }
      return false;
    }
  }
}
