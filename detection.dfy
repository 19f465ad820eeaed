/**
 * One frame of `OcrDetectorProcessor`, stated on values: the per-field
 * detection record (`DetectionDictInfo`), the frame reset, the keyword scan
 * with its postal-code fallback, the three value strategies, and what a frame
 * and a sequence of frames do to the persisted results.
 */
module Detection {
  import opened Wrappers
  import opened Strings
  import opened Patterns
  import opened Geometry
  import opened Dictionary

  /** `DetectionDictInfo`: what the current frame found for one field. */
  datatype Info = Info(
    selected: bool,               // bSelected: a value was accepted this frame
    indexOfKey: int,              // mIndexOfKey: keyword of the last hit (kept across frames)
    keyBlock: Option<Block>,      // mKeywordBlock
    indexInKeyBlock: int,         // mIndexInKeyBlock: the keyword unit, -1 for none
    valueText: Option<TextUnit>)  // mValueText

  /** A field as the processor sees it: configuration, persisted result, this frame's record. */
  datatype Field = Field(cfg: Config, res: Persisted, info: Info)

  /** The record a field starts a session with. */
  const InitialInfo: Info := Info(false, -1, None, -1, None)

  /** Names of the fields that get the postal-code fallback. */
  const ServiceAddress: string := "service address"

  /**
   * The shape every record keeps: a unit hit names a keyword of the field and a
   * unit of the hit block; a block hit without a unit (the postal fallback)
   * carries the matching unit as its value text.
   */
  predicate WellFormed(keywords: seq<string>, info: Info)
  {
    && -1 <= info.indexOfKey < |keywords|
    && (info.indexInKeyBlock >= 0 ==>
          info.indexOfKey >= 0 && info.keyBlock.Some? && info.indexInKeyBlock < |info.keyBlock.value|)
    && (info.keyBlock.Some? && info.indexInKeyBlock < 0 ==>
          info.valueText.Some? && |info.keyBlock.value| > 0)
  }

  predicate AllWellFormed(cfgs: seq<Config>, infos: seq<Info>)
  {
    |cfgs| == |infos| && forall k :: 0 <= k < |infos| ==> WellFormed(cfgs[k].keywords, infos[k])
  }

  /** The per-frame reset of `receiveDetections`: everything but the keyword index. */
  function Reset(info: Info): Info
  {
    info.(selected := false, valueText := None, keyBlock := None, indexInKeyBlock := -1)
  }

  // ---------------------------------------------------------------------------
  // find_keyword

  /** The first field, from `f` on, one of whose keywords `text` contains; -1 if none. */
  function FirstFieldFrom(cfgs: seq<Config>, text: string, f: nat): (r: int)
    requires f <= |cfgs|
    ensures r == -1 || (f <= r < |cfgs| && IndexKeywords(cfgs[r].keywords, text) >= 0)
    ensures r >= 0 ==> forall k :: f <= k < r ==> IndexKeywords(cfgs[k].keywords, text) < 0
    ensures r == -1 ==> forall k :: f <= k < |cfgs| ==> IndexKeywords(cfgs[k].keywords, text) < 0
    decreases |cfgs| - f
  {
    if f == |cfgs| then -1
    else if IndexKeywords(cfgs[f].keywords, text) > -1 then f
    else FirstFieldFrom(cfgs, text, f + 1)
  }

  /**
   * One unit of the keyword scan: it is assigned to the first field in list
   * order whose keyword it contains, overwriting that field's earlier hit; no
   * other field changes.
   */
  function AssignUnit(cfgs: seq<Config>, infos: seq<Info>, block: Block, j: nat): (r: seq<Info>)
    requires |infos| == |cfgs| && j < |block|
    ensures |r| == |infos|
    ensures forall k :: 0 <= k < |r| ==> r[k].selected == infos[k].selected
    ensures forall k :: 0 <= k < |r| && r[k] != infos[k] ==>
              IndexKeywords(cfgs[k].keywords, block[j].value) >= 0
              && forall k' :: 0 <= k' < k ==> IndexKeywords(cfgs[k'].keywords, block[j].value) < 0
    ensures forall k :: 0 <= k < |r| && FirstFieldFrom(cfgs, block[j].value, 0) == k ==>
              r[k] == infos[k].(indexOfKey := IndexKeywords(cfgs[k].keywords, block[j].value),
                                keyBlock := Some(block), indexInKeyBlock := j)
  {
    var text := block[j].value;
    var f := FirstFieldFrom(cfgs, text, 0);
    if f < 0 then infos
    else infos[f := infos[f].(indexOfKey := IndexKeywords(cfgs[f].keywords, text),
                              keyBlock := Some(block), indexInKeyBlock := j)]
  }

  /** The first `n` units of a block, scanned in order. */
  function ScanUnits(cfgs: seq<Config>, infos: seq<Info>, block: Block, n: nat): (r: seq<Info>)
    requires |infos| == |cfgs| && n <= |block|
    ensures |r| == |infos|
    ensures forall k :: 0 <= k < |r| ==> r[k].selected == infos[k].selected
  {
    if n == 0 then infos else AssignUnit(cfgs, ScanUnits(cfgs, infos, block, n - 1), block, n - 1)
  }

  /**
   * After scanning units of a block, a field's record holds the LAST unit
   * assigned to it: a later keyword hit overwrites an earlier one.
   */
  lemma {:induction false} LastHitWins(cfgs: seq<Config>, infos: seq<Info>, block: Block, n: nat, j: nat, k: nat)
    requires |infos| == |cfgs| && j < n <= |block| && k < |cfgs|
    requires FirstFieldFrom(cfgs, block[j].value, 0) == k
    requires forall j' :: j < j' < n ==> FirstFieldFrom(cfgs, block[j'].value, 0) != k
    ensures var r := ScanUnits(cfgs, infos, block, n)[k];
      r.keyBlock == Some(block) && r.indexInKeyBlock == j
      && r.indexOfKey == IndexKeywords(cfgs[k].keywords, block[j].value)
  {
    if n - 1 > j {
      LastHitWins(cfgs, infos, block, n - 1, j, k);
      var prev := ScanUnits(cfgs, infos, block, n - 1);
      assert FirstFieldFrom(cfgs, block[n - 1].value, 0) != k;
      assert AssignUnit(cfgs, prev, block, n - 1)[k] == prev[k];
    }
  }

  /** The units of `block` that match `code`: the first of them, if any. */
  function FirstUnitMatching(code: string, block: Block): (r: Option<TextUnit>)
    ensures r.Some? ==> r.value in block && PostalMatch(code, r.value.value)
    ensures r.None? <==> forall u :: u in block ==> !PostalMatch(code, u.value)
  {
    if block == [] then None
    else if PostalMatch(code, block[0].value) then Some(block[0])
    else FirstUnitMatching(code, block[1..])
  }

  /** The unit found for a code is the first matching one in block order. */
  lemma {:induction false} FirstUnitMatchingIsFirst(code: string, block: Block)
    ensures var r := FirstUnitMatching(code, block);
      r.Some? ==> exists j :: 0 <= j < |block| && r.value == block[j] && PostalMatch(code, block[j].value)
                              && forall j' :: 0 <= j' < j ==> !PostalMatch(code, block[j'].value)
    decreases |block|
  {
    if block != [] && !PostalMatch(code, block[0].value) {
      FirstUnitMatchingIsFirst(code, block[1..]);
      FirstUnitShift(code, block, FirstUnitMatching(code, block[1..]));
    }
  }

  /** A first match in the tail of a block is a first match in the block when its head does not match. */
  lemma FirstUnitShift(code: string, block: Block, r: Option<TextUnit>)
    requires block != [] && !PostalMatch(code, block[0].value)
    requires r.Some? ==> exists j :: 0 <= j < |block| - 1 && r.value == block[1..][j] && PostalMatch(code, block[1..][j].value)
                                     && forall j' :: 0 <= j' < j ==> !PostalMatch(code, block[1..][j'].value)
    ensures r.Some? ==> exists j :: 0 <= j < |block| && r.value == block[j] && PostalMatch(code, block[j].value)
                                    && forall j' :: 0 <= j' < j ==> !PostalMatch(code, block[j'].value)
  {
    if r.Some? {
      var j :| 0 <= j < |block| - 1 && r.value == block[1..][j] && PostalMatch(code, block[1..][j].value)
               && forall j' :: 0 <= j' < j ==> !PostalMatch(code, block[1..][j'].value);
      forall j' | 0 <= j' < j + 1 ensures !PostalMatch(code, block[j'].value) {
        if j' > 0 {
          assert block[j'] == block[1..][j' - 1];
        }
      }
    }
  }

  /** The postal tables are tried pattern-major: the first code with a matching unit decides. */
  function FirstPostalUnit(codes: seq<string>, block: Block): (r: Option<TextUnit>)
    ensures r.Some? ==> r.value in block && exists c :: c in codes && PostalMatch(c, r.value.value)
    ensures r.None? <==> forall c, u :: c in codes && u in block ==> !PostalMatch(c, u.value)
  {
    if codes == [] then None
    else match FirstUnitMatching(codes[0], block)
      case Some(u) => Some(u)
      case None =>
        assert forall c :: c in codes ==> c == codes[0] || c in codes[1..];
        FirstPostalUnit(codes[1..], block)
  }

  /** From code `i` on, the postal unit is the unit found for the first code that finds one. */
  lemma {:induction false} FirstPostalUnitFrom(codes: seq<string>, block: Block, i: nat)
    requires i <= |codes|
    ensures var r := FirstPostalUnit(codes[i..], block);
      r.Some? ==> exists k :: i <= k < |codes| && r == FirstUnitMatching(codes[k], block)
                              && forall k' :: i <= k' < k ==> FirstUnitMatching(codes[k'], block).None?
    decreases |codes| - i
  {
    if i < |codes| {
      assert codes[i..][0] == codes[i] && codes[i..][1..] == codes[i + 1..];
      if FirstUnitMatching(codes[i], block).None? {
        FirstPostalUnitFrom(codes, block, i + 1);
      }
    }
  }

  /**
   * Codes are tried in table order and, for each, units in block order: the
   * postal unit is the first matching unit of the first code that has one.
   */
  lemma FirstPostalUnitIsFirst(codes: seq<string>, block: Block)
    ensures var r := FirstPostalUnit(codes, block);
      r.Some? ==> exists k :: 0 <= k < |codes| && r == FirstUnitMatching(codes[k], block)
                              && forall k' :: 0 <= k' < k ==> FirstUnitMatching(codes[k'], block).None?
  {
    FirstPostalUnitFrom(codes, block, 0);
    assert codes[0..] == codes;
  }

  /** A field the postal fallback looks at: a "service address" without a resolved keyword. */
  predicate PostalCandidate(cfg: Config, resKeyword: string)
  {
    Contains(Lower(cfg.name), ServiceAddress) && resKeyword == ""
  }

  /** Which fields the postal fallback looks at; neither input changes during a keyword scan. */
  function PostalCandidates(cfgs: seq<Config>, resKeywords: seq<string>): (r: seq<bool>)
    requires |cfgs| == |resKeywords|
  {
    seq(|cfgs|, k requires 0 <= k < |cfgs| => PostalCandidate(cfgs[k], resKeywords[k]))
  }

  /**
   * The field loop of `checkServiceAddressEx` from field `k` on: the field that
   * takes the postal hit, or -1. A candidate that already has a keyword index or
   * a hit block ends the loop, and so does a country without a table.
   */
  function PostalTargetFrom(candidates: seq<bool>, infos: seq<Info>, hasTable: bool, matches: bool, k: nat): (r: int)
    requires |candidates| == |infos| && k <= |infos|
    ensures r == -1 || k <= r < |infos|
    decreases |infos| - k
  {
    if k == |infos| then -1
    else if !candidates[k] then PostalTargetFrom(candidates, infos, hasTable, matches, k + 1)
    else if infos[k].indexOfKey >= 0 || infos[k].keyBlock.Some? then -1
    else if !hasTable then -1
    else if matches then k
    else PostalTargetFrom(candidates, infos, hasTable, matches, k + 1)
  }

  /** A field takes the postal hit when the loop reaches it. */
  predicate PostalTakes(candidate: bool, info: Info, hasTable: bool, matches: bool)
  {
    candidate && info.indexOfKey < 0 && info.keyBlock.None? && hasTable && matches
  }

  /**
   * The postal fallback picks exactly the first candidate field, and only when
   * that field has never had a keyword hit, has no hit this frame, the country
   * has a table and a unit of the block matches one of its codes.
   */
  lemma {:induction false} PostalTargetIsFirstCandidate(candidates: seq<bool>, infos: seq<Info>,
                                                        hasTable: bool, matches: bool, k: nat)
    requires |candidates| == |infos| && k <= |infos|
    ensures var r := PostalTargetFrom(candidates, infos, hasTable, matches, k);
      r >= 0 ==> (PostalTakes(candidates[r], infos[r], hasTable, matches)
                  && forall t :: k <= t < r ==> !candidates[t])
    ensures forall t :: k <= t < |infos| && PostalTakes(candidates[t], infos[t], hasTable, matches)
                 && (forall t' :: k <= t' < t ==> !candidates[t'])
                 ==> PostalTargetFrom(candidates, infos, hasTable, matches, k) == t
    decreases |infos| - k
  {
    if k < |infos| {
      PostalTargetIsFirstCandidate(candidates, infos, hasTable, matches, k + 1);
    }
  }

  /** `checkServiceAddressEx(block)`: the updated records and whether a hit was made. */
  function PostalCheck(cfgs: seq<Config>, resKeywords: seq<string>, country: string,
                       infos: seq<Info>, block: Block): (r: (seq<Info>, bool))
    requires |cfgs| == |resKeywords| == |infos|
    ensures |r.0| == |infos|
    ensures !r.1 ==> r.0 == infos
    ensures forall k :: 0 <= k < |infos| ==> r.0[k].selected == infos[k].selected
  {
    var candidates := PostalCandidates(cfgs, resKeywords);
    var codes := PostalCodes(country);
    var matches := codes.Some? && FirstPostalUnit(codes.value, block).Some?;
    var t := PostalTargetFrom(candidates, infos, codes.Some?, matches, 0);
    if t < 0 then (infos, false)
    else
      PostalTargetIsFirstCandidate(candidates, infos, codes.Some?, matches, 0);
      (infos[t := infos[t].(keyBlock := Some(block), valueText := FirstPostalUnit(codes.value, block))], true)
  }

  /**
   * The postal fallback changes a record only when the field is the first
   * "service address" field without a resolved keyword, has neither a keyword
   * index nor a hit, and the country has a table one of whose codes a unit of
   * the block matches; the hit keeps the unit index and carries that unit.
   */
  lemma PostalCheckChanges(cfgs: seq<Config>, resKeywords: seq<string>, country: string,
                           infos: seq<Info>, block: Block, k: nat)
    requires |cfgs| == |resKeywords| == |infos| && k < |infos|
    requires PostalCheck(cfgs, resKeywords, country, infos, block).0[k] != infos[k]
    ensures PostalCandidate(cfgs[k], resKeywords[k])
    ensures forall t :: 0 <= t < k ==> !PostalCandidate(cfgs[t], resKeywords[t])
    ensures infos[k].indexOfKey < 0 && infos[k].keyBlock.None?
    ensures PostalCodes(country).Some? && FirstPostalUnit(PostalCodes(country).value, block).Some?
    ensures PostalCheck(cfgs, resKeywords, country, infos, block).0[k]
            == infos[k].(keyBlock := Some(block), valueText := FirstPostalUnit(PostalCodes(country).value, block))
  {
    var candidates := PostalCandidates(cfgs, resKeywords);
    assert forall t :: 0 <= t < |cfgs| ==> (candidates[t] <==> PostalCandidate(cfgs[t], resKeywords[t]));
    var codes := PostalCodes(country);
    var matches := codes.Some? && FirstPostalUnit(codes.value, block).Some?;
    PostalTargetIsFirstCandidate(candidates, infos, codes.Some?, matches, 0);
    var t := PostalTargetFrom(candidates, infos, codes.Some?, matches, 0);
    assert t == k;
  }

  /** One block of `find_keyword`: its units, then the postal fallback. */
  function BlockPass(cfgs: seq<Config>, resKeywords: seq<string>, country: string,
                     infos: seq<Info>, block: Block): (r: seq<Info>)
    requires |cfgs| == |resKeywords| == |infos|
    ensures |r| == |infos|
    ensures forall k :: 0 <= k < |r| ==> r[k].selected == infos[k].selected
  {
    PostalCheck(cfgs, resKeywords, country, ScanUnits(cfgs, infos, block, |block|), block).0
  }

  /** `find_keyword` over the first `n` blocks of the frame. */
  function KeywordPass(cfgs: seq<Config>, resKeywords: seq<string>, country: string,
                       frame: Frame, n: nat, infos: seq<Info>): (r: seq<Info>)
    requires |cfgs| == |resKeywords| == |infos| && n <= |frame|
    ensures |r| == |infos|
    ensures forall k :: 0 <= k < |r| ==> r[k].selected == infos[k].selected
  {
    if n == 0 then infos
    else BlockPass(cfgs, resKeywords, country, KeywordPass(cfgs, resKeywords, country, frame, n - 1, infos), frame[n - 1])
  }

  lemma AssignUnitWellFormed(cfgs: seq<Config>, infos: seq<Info>, block: Block, j: nat)
    requires AllWellFormed(cfgs, infos) && j < |block|
    ensures AllWellFormed(cfgs, AssignUnit(cfgs, infos, block, j))
  {
    var f := FirstFieldFrom(cfgs, block[j].value, 0);
    if f >= 0 {
      var r := AssignUnit(cfgs, infos, block, j);
      forall k | 0 <= k < |r| ensures WellFormed(cfgs[k].keywords, r[k]) {
        if k != f {
          assert r[k] == infos[k];
        }
      }
    }
  }

  lemma {:induction false} ScanUnitsWellFormed(cfgs: seq<Config>, infos: seq<Info>, block: Block, n: nat)
    requires AllWellFormed(cfgs, infos) && n <= |block|
    ensures AllWellFormed(cfgs, ScanUnits(cfgs, infos, block, n))
  {
    if n > 0 {
      ScanUnitsWellFormed(cfgs, infos, block, n - 1);
      AssignUnitWellFormed(cfgs, ScanUnits(cfgs, infos, block, n - 1), block, n - 1);
    }
  }

  lemma PostalCheckWellFormed(cfgs: seq<Config>, resKeywords: seq<string>, country: string,
                              infos: seq<Info>, block: Block)
    requires AllWellFormed(cfgs, infos) && |resKeywords| == |infos|
    ensures AllWellFormed(cfgs, PostalCheck(cfgs, resKeywords, country, infos, block).0)
  {
    var candidates := PostalCandidates(cfgs, resKeywords);
    var codes := PostalCodes(country);
    var matches := codes.Some? && FirstPostalUnit(codes.value, block).Some?;
    var t := PostalTargetFrom(candidates, infos, codes.Some?, matches, 0);
    if t >= 0 {
      PostalTargetIsFirstCandidate(candidates, infos, codes.Some?, matches, 0);
    }
  }

  /**
   * The keyword scan keeps every record well formed: whenever a field has a unit
   * hit, its keyword index is a valid index into its keywords and the unit index
   * a valid index into the hit block.
   */
  lemma {:induction false} KeywordPassWellFormed(cfgs: seq<Config>, resKeywords: seq<string>, country: string,
                                                 frame: Frame, n: nat, infos: seq<Info>)
    requires AllWellFormed(cfgs, infos) && |resKeywords| == |infos| && n <= |frame|
    ensures AllWellFormed(cfgs, KeywordPass(cfgs, resKeywords, country, frame, n, infos))
  {
    if n > 0 {
      KeywordPassWellFormed(cfgs, resKeywords, country, frame, n - 1, infos);
      BlockPassWellFormed(cfgs, resKeywords, country, KeywordPass(cfgs, resKeywords, country, frame, n - 1, infos), frame[n - 1]);
    }
  }

  lemma BlockPassWellFormed(cfgs: seq<Config>, resKeywords: seq<string>, country: string,
                            infos: seq<Info>, block: Block)
    requires AllWellFormed(cfgs, infos) && |resKeywords| == |infos|
    ensures AllWellFormed(cfgs, BlockPass(cfgs, resKeywords, country, infos, block))
  {
    ScanUnitsWellFormed(cfgs, infos, block, |block|);
    PostalCheckWellFormed(cfgs, resKeywords, country, ScanUnits(cfgs, infos, block, |block|), block);
  }

  /** A field no keyword scan can touch: no keywords and not a "service address". */
  predicate NeverLocated(cfg: Config)
  {
    cfg.keywords == [] && !Contains(Lower(cfg.name), ServiceAddress)
  }

  /** A unit leaves the record of a field without keywords alone. */
  lemma AssignUnitSkips(cfgs: seq<Config>, infos: seq<Info>, block: Block, j: nat, k: nat)
    requires |infos| == |cfgs| && j < |block| && k < |cfgs| && cfgs[k].keywords == []
    ensures AssignUnit(cfgs, infos, block, j)[k] == infos[k]
  {
    assert IndexKeywords(cfgs[k].keywords, block[j].value) == -1;
    var f := FirstFieldFrom(cfgs, block[j].value, 0);
    if f >= 0 {
      assert f != k;
    }
  }

  lemma {:induction false} ScanUnitsSkips(cfgs: seq<Config>, infos: seq<Info>, block: Block, n: nat, k: nat)
    requires |infos| == |cfgs| && n <= |block| && k < |cfgs| && cfgs[k].keywords == []
    ensures ScanUnits(cfgs, infos, block, n)[k] == infos[k]
  {
    if n > 0 {
      ScanUnitsSkips(cfgs, infos, block, n - 1, k);
      AssignUnitSkips(cfgs, ScanUnits(cfgs, infos, block, n - 1), block, n - 1, k);
    }
  }

  lemma PostalCheckSkips(cfgs: seq<Config>, resKeywords: seq<string>, country: string,
                         infos: seq<Info>, block: Block, k: nat)
    requires |cfgs| == |resKeywords| == |infos| && k < |cfgs| && !PostalCandidate(cfgs[k], resKeywords[k])
    ensures PostalCheck(cfgs, resKeywords, country, infos, block).0[k] == infos[k]
  {
    var candidates := PostalCandidates(cfgs, resKeywords);
    var codes := PostalCodes(country);
    var matches := codes.Some? && FirstPostalUnit(codes.value, block).Some?;
    var t := PostalTargetFrom(candidates, infos, codes.Some?, matches, 0);
    if t >= 0 {
      PostalTargetIsFirstCandidate(candidates, infos, codes.Some?, matches, 0);
      assert !candidates[k];
      assert t != k;
    }
  }

  lemma BlockPassSkips(cfgs: seq<Config>, resKeywords: seq<string>, country: string,
                       infos: seq<Info>, block: Block, k: nat)
    requires |cfgs| == |resKeywords| == |infos| && k < |cfgs| && NeverLocated(cfgs[k])
    ensures BlockPass(cfgs, resKeywords, country, infos, block)[k] == infos[k]
  {
    var scanned := ScanUnits(cfgs, infos, block, |block|);
    ScanUnitsSkips(cfgs, infos, block, |block|, k);
    PostalCheckSkips(cfgs, resKeywords, country, scanned, block, k);
  }

  /** No unit of `block` from `from` on is assigned to field `k`. */
  predicate NoUnitFor(cfgs: seq<Config>, block: Block, k: nat, from: nat)
  {
    forall j :: from <= j < |block| ==> FirstFieldFrom(cfgs, block[j].value, 0) != k
  }

  /** Units none of which is assigned to field `k` leave its record alone. */
  lemma {:induction false} ScanUnitsUntouched(cfgs: seq<Config>, infos: seq<Info>, block: Block, n: nat, k: nat)
    requires |infos| == |cfgs| && n <= |block| && k < |cfgs|
    requires forall j {:trigger FirstFieldFrom(cfgs, block[j].value, 0)} :: 0 <= j < n ==> FirstFieldFrom(cfgs, block[j].value, 0) != k
    ensures ScanUnits(cfgs, infos, block, n)[k] == infos[k]
  {
    if n > 0 {
      ScanUnitsUntouched(cfgs, infos, block, n - 1, k);
      var prev := ScanUnits(cfgs, infos, block, n - 1);
      assert FirstFieldFrom(cfgs, block[n - 1].value, 0) != k;
      assert AssignUnit(cfgs, prev, block, n - 1)[k] == prev[k];
    }
  }

  /**
   * The postal fallback never overwrites a hit already recorded, and never
   * changes a keyword index or a unit index.
   */
  lemma PostalCheckKeepsHit(cfgs: seq<Config>, resKeywords: seq<string>, country: string,
                            infos: seq<Info>, block: Block, k: nat)
    requires |cfgs| == |resKeywords| == |infos| && k < |infos|
    ensures infos[k].keyBlock.Some? ==> PostalCheck(cfgs, resKeywords, country, infos, block).0[k] == infos[k]
    ensures var r := PostalCheck(cfgs, resKeywords, country, infos, block).0[k];
      r.indexOfKey == infos[k].indexOfKey && r.indexInKeyBlock == infos[k].indexInKeyBlock
  {
    if PostalCheck(cfgs, resKeywords, country, infos, block).0[k] != infos[k] {
      PostalCheckChanges(cfgs, resKeywords, country, infos, block, k);
    }
  }

  /** One block: the last unit assigned to field `k` is what its record holds afterwards. */
  lemma BlockPassHit(cfgs: seq<Config>, resKeywords: seq<string>, country: string,
                     infos: seq<Info>, block: Block, k: nat, j: nat)
    requires |cfgs| == |resKeywords| == |infos| && k < |infos| && j < |block|
    requires FirstFieldFrom(cfgs, block[j].value, 0) == k && NoUnitFor(cfgs, block, k, j + 1)
    ensures var r := BlockPass(cfgs, resKeywords, country, infos, block)[k];
      r.keyBlock == Some(block) && r.indexInKeyBlock == j
      && r.indexOfKey == IndexKeywords(cfgs[k].keywords, block[j].value)
  {
    var scanned := ScanUnits(cfgs, infos, block, |block|);
    LastHitWins(cfgs, infos, block, |block|, j, k);
    PostalCheckKeepsHit(cfgs, resKeywords, country, scanned, block, k);
  }

  /**
   * One block none of whose units is assigned to field `k`: a hit already
   * recorded is kept, and the keyword and unit indices never change.
   */
  lemma BlockPassNoHit(cfgs: seq<Config>, resKeywords: seq<string>, country: string,
                       infos: seq<Info>, block: Block, k: nat)
    requires |cfgs| == |resKeywords| == |infos| && k < |infos| && NoUnitFor(cfgs, block, k, 0)
    ensures infos[k].keyBlock.Some? ==> BlockPass(cfgs, resKeywords, country, infos, block)[k] == infos[k]
    ensures var r := BlockPass(cfgs, resKeywords, country, infos, block)[k];
      r.indexOfKey == infos[k].indexOfKey && r.indexInKeyBlock == infos[k].indexInKeyBlock
  {
    var scanned := ScanUnits(cfgs, infos, block, |block|);
    ScanUnitsUntouched(cfgs, infos, block, |block|, k);
    PostalCheckKeepsHit(cfgs, resKeywords, country, scanned, block, k);
  }

  /** The last block's last unit assigned to field `k` is what its record holds. */
  lemma KeywordPassTakesHit(cfgs: seq<Config>, resKeywords: seq<string>, country: string,
                            frame: Frame, i: nat, infos: seq<Info>, k: nat, j: nat)
    requires |cfgs| == |resKeywords| == |infos| && k < |infos| && i < |frame| && j < |frame[i]|
    requires FirstFieldFrom(cfgs, frame[i][j].value, 0) == k && NoUnitFor(cfgs, frame[i], k, j + 1)
    ensures var r := KeywordPass(cfgs, resKeywords, country, frame, i + 1, infos)[k];
      r.keyBlock == Some(frame[i]) && r.indexInKeyBlock == j
      && r.indexOfKey == IndexKeywords(cfgs[k].keywords, frame[i][j].value)
  {
    var prev := KeywordPass(cfgs, resKeywords, country, frame, i, infos);
    BlockPassHit(cfgs, resKeywords, country, prev, frame[i], k, j);
  }

  /** A block none of whose units is assigned to field `k` keeps the hit it already has. */
  lemma KeywordPassKeepsHit(cfgs: seq<Config>, resKeywords: seq<string>, country: string,
                            frame: Frame, n: nat, infos: seq<Info>, k: nat)
    requires |cfgs| == |resKeywords| == |infos| && k < |infos| && 0 < n <= |frame|
    requires NoUnitFor(cfgs, frame[n - 1], k, 0)
    requires KeywordPass(cfgs, resKeywords, country, frame, n - 1, infos)[k].keyBlock.Some?
    ensures KeywordPass(cfgs, resKeywords, country, frame, n, infos)[k]
            == KeywordPass(cfgs, resKeywords, country, frame, n - 1, infos)[k]
  {
    var prev := KeywordPass(cfgs, resKeywords, country, frame, n - 1, infos);
    BlockPassNoHit(cfgs, resKeywords, country, prev, frame[n - 1], k);
  }

  /** No unit of blocks `from` to `n - 1` of `frame` is assigned to field `k`. */
  predicate NoUnitInBlocks(cfgs: seq<Config>, frame: Frame, k: nat, from: nat, n: nat)
    requires n <= |frame|
    decreases n
  {
    n <= from || (NoUnitFor(cfgs, frame[n - 1], k, 0) && NoUnitInBlocks(cfgs, frame, k, from, n - 1))
  }

  /** `NoUnitInBlocks` holds exactly when every block in the range has no unit for `k`. */
  lemma {:induction false} NoUnitInBlocksMeaning(cfgs: seq<Config>, frame: Frame, k: nat, from: nat, n: nat)
    requires n <= |frame|
    ensures NoUnitInBlocks(cfgs, frame, k, from, n)
            <==> forall i :: from <= i < n ==> NoUnitFor(cfgs, frame[i], k, 0)
  {
    if n > from {
      NoUnitInBlocksMeaning(cfgs, frame, k, from, n - 1);
    }
  }

  /** Blocks none of whose units is assigned to field `k` keep the hit it already has. */
  lemma {:induction false} KeywordPassKeepsHitFrom(cfgs: seq<Config>, resKeywords: seq<string>, country: string,
                                                   frame: Frame, n: nat, infos: seq<Info>, k: nat, from: nat)
    requires |cfgs| == |resKeywords| == |infos| && k < |infos| && from <= n <= |frame|
    requires NoUnitInBlocks(cfgs, frame, k, from, n)
    requires KeywordPass(cfgs, resKeywords, country, frame, from, infos)[k].keyBlock.Some?
    ensures var r := KeywordPass(cfgs, resKeywords, country, frame, n, infos)[k];
      var hit := KeywordPass(cfgs, resKeywords, country, frame, from, infos)[k];
      r.keyBlock == hit.keyBlock && r.indexInKeyBlock == hit.indexInKeyBlock && r.indexOfKey == hit.indexOfKey
    decreases n - from
  {
    if n > from {
      KeywordPassKeepsHitFrom(cfgs, resKeywords, country, frame, n - 1, infos, k, from);
      KeywordPassKeepsHit(cfgs, resKeywords, country, frame, n, infos, k);
    }
  }

  /**
   * Across the blocks of a frame, a field's record holds the LAST unit assigned
   * to it in block-then-unit order: a later hit overwrites an earlier one, in
   * the same block or in a later one, and the postal fallback never replaces it.
   */
  lemma KeywordPassLastHit(cfgs: seq<Config>, resKeywords: seq<string>, country: string,
                            frame: Frame, n: nat, infos: seq<Info>, k: nat, i: nat, j: nat)
    requires |cfgs| == |resKeywords| == |infos| && k < |infos| && i < n <= |frame| && j < |frame[i]|
    requires FirstFieldFrom(cfgs, frame[i][j].value, 0) == k
    requires NoUnitFor(cfgs, frame[i], k, j + 1)
    requires NoUnitInBlocks(cfgs, frame, k, i + 1, n)
    ensures var r := KeywordPass(cfgs, resKeywords, country, frame, n, infos)[k];
      r.keyBlock == Some(frame[i]) && r.indexInKeyBlock == j
      && r.indexOfKey == IndexKeywords(cfgs[k].keywords, frame[i][j].value)
  {
    KeywordPassTakesHit(cfgs, resKeywords, country, frame, i, infos, k, j);
    KeywordPassKeepsHitFrom(cfgs, resKeywords, country, frame, n, infos, k, i + 1);
  }

  /**
   * A field to which no unit of the frame is assigned keeps its keyword index
   * and its unit index: after the reset, it has no unit hit.
   */
  lemma {:induction false} KeywordPassNoUnitHit(cfgs: seq<Config>, resKeywords: seq<string>, country: string,
                                                frame: Frame, n: nat, infos: seq<Info>, k: nat)
    requires |cfgs| == |resKeywords| == |infos| && k < |infos| && n <= |frame|
    requires forall i :: 0 <= i < n ==> NoUnitFor(cfgs, frame[i], k, 0)
    ensures var r := KeywordPass(cfgs, resKeywords, country, frame, n, infos)[k];
      r.indexOfKey == infos[k].indexOfKey && r.indexInKeyBlock == infos[k].indexInKeyBlock
  {
    if n > 0 {
      var prev := KeywordPass(cfgs, resKeywords, country, frame, n - 1, infos);
      KeywordPassNoUnitHit(cfgs, resKeywords, country, frame, n - 1, infos, k);
      BlockPassNoHit(cfgs, resKeywords, country, prev, frame[n - 1], k);
    }
  }

  /** The keyword scan never touches a field without keywords that is not a "service address". */
  lemma {:induction false} KeywordPassSkips(cfgs: seq<Config>, resKeywords: seq<string>, country: string,
                                            frame: Frame, n: nat, infos: seq<Info>, k: nat)
    requires |cfgs| == |resKeywords| == |infos| && n <= |frame| && k < |cfgs| && NeverLocated(cfgs[k])
    ensures KeywordPass(cfgs, resKeywords, country, frame, n, infos)[k] == infos[k]
  {
    if n > 0 {
      var prev := KeywordPass(cfgs, resKeywords, country, frame, n - 1, infos);
      KeywordPassSkips(cfgs, resKeywords, country, frame, n - 1, infos, k);
      BlockPassSkips(cfgs, resKeywords, country, prev, frame[n - 1], k);
      assert KeywordPass(cfgs, resKeywords, country, frame, n, infos) == BlockPass(cfgs, resKeywords, country, prev, frame[n - 1]);
    }
  }

  // ---------------------------------------------------------------------------
  // find_value

  /**
   * Values of the longest run of address-like units that ends the sequence
   * (the `builder` list: a purely numeric or non-alphanumeric unit clears it).
   */
  function AddressRun(us: seq<TextUnit>): (r: seq<string>)
    ensures |r| <= |us|
    ensures forall i :: 0 <= i < |r| ==> r[i] == us[|us| - |r| + i].value && AddressLike(r[i])
    ensures |r| < |us| ==> !AddressLike(us[|us| - |r| - 1].value)
  {
    if us == [] then []
    else
      var init := us[..|us| - 1];
      assert forall i :: 0 <= i < |init| ==> init[i] == us[i];
      if AddressLike(us[|us| - 1].value) then AddressRun(init) + [us[|us| - 1].value] else []
  }

  /** How many units the accumulation visits: up to and including the first unit at `top`. */
  function StopCount(us: seq<TextUnit>, top: int): (n: nat)
    ensures n <= |us|
    ensures forall i :: 0 <= i < n - 1 ==> us[i].box.top != top
    ensures n < |us| ==> 0 < n && us[n - 1].box.top == top
    ensures us != [] ==> n > 0
  {
    if us == [] then 0
    else if us[0].box.top == top then 1
    else 1 + StopCount(us[1..], top)
  }

  /** The address assembled from a block up to the unit that carried the postal code. */
  function AddressText(block: Block, top: int): string
  {
    Join(", ", AddressRun(block[..StopCount(block, top)]))
  }

  /** The trimmed text after the first case-insensitive occurrence of `key`, if it occurs. */
  function AfterKeyword(text: string, key: string): (r: Option<string>)
    ensures r.Some? <==> Contains(Lower(text), Lower(key))
  {
    var off := IndexOf(Lower(text), Lower(key));
    if off < 0 then None else Some(Trim(text[off + |key|..]))
  }

  /** The text after `key` exists and validates against the field's patterns. */
  predicate InlineValidates(text: string, key: string, patterns: Option<seq<string>>, m: Matcher)
  {
    match AfterKeyword(text, key)
    case None => false
    case Some(v) => MatchValuePattern(patterns, m, v).Some?
  }

  /** A validating keyword has text after it. */
  lemma InlineValue(text: string, key: string, patterns: Option<seq<string>>, m: Matcher)
    requires InlineValidates(text, key, patterns, m)
    ensures AfterKeyword(text, key).Some?
  {
  }

  /** The index of the first set flag from `i` on; -1 if there is none. */
  function FirstSet(flags: seq<bool>, i: nat): (r: int)
    requires i <= |flags|
    ensures r == -1 || (i <= r < |flags| && flags[r])
    ensures forall k :: i <= k < |flags| && (r == -1 || k < r) ==> !flags[k]
    decreases |flags| - i
  {
    if i == |flags| then -1 else if flags[i] then i else FirstSet(flags, i + 1)
  }

  /** For each keyword, whether the text after it validates. */
  function InlineFlags(keywords: seq<string>, patterns: Option<seq<string>>, m: Matcher, text: string): (r: seq<bool>)
  {
    seq(|keywords|, k requires 0 <= k < |keywords| => InlineValidates(text, keywords[k], patterns, m))
  }

  /**
   * The keyword loop of `find_value_in_text`: the first keyword, in list order,
   * whose trailing text validates; -1 when none does.
   */
  function FirstInlineKey(keywords: seq<string>, patterns: Option<seq<string>>, m: Matcher, text: string): (r: int)
    ensures r == -1 || (0 <= r < |keywords| && InlineValidates(text, keywords[r], patterns, m))
    ensures forall k :: 0 <= k < |keywords| && (r == -1 || k < r) ==> !InlineValidates(text, keywords[k], patterns, m)
  {
    var flags := InlineFlags(keywords, patterns, m, text);
    assert forall k :: 0 <= k < |keywords| ==> (flags[k] <==> InlineValidates(text, keywords[k], patterns, m));
    FirstSet(flags, 0)
  }

  /**
   * What every strategy does with a validated candidate: record the unit it
   * came from, clear the value first when the field has no keyword index
   * (`resValue=""`), offer the candidate for acceptance and, when it is
   * accepted, mark the field selected and (for keyword-based strategies)
   * record the hit keyword.
   */
  function Settle(cfg: Config, m: Matcher, res: Persisted, info: Info, value: string,
                  unit: TextUnit, setKeyword: bool, resetIfNoKey: bool): (r: (Persisted, Info))
    requires setKeyword ==> 0 <= info.indexOfKey < |cfg.keywords|
    ensures r.1 == info.(valueText := Some(unit), selected := r.1.selected)
    ensures !(resetIfNoKey && info.indexOfKey < 0) ==> Advances(cfg, res, r.0)
    ensures !(resetIfNoKey && info.indexOfKey < 0) ==> (r.1.selected <==> info.selected || r.0.resValue != res.resValue)
    ensures !(resetIfNoKey && info.indexOfKey < 0) ==>
              (r.0.resValue != res.resValue <==>
                 MatchValuePattern(cfg.patterns, m, value).Some?
                 && (res.resValue == "" || |MatchValuePattern(cfg.patterns, m, value).value.value| > |res.resValue|))
    ensures r.0.resKeyword != res.resKeyword ==> setKeyword && r.0.resKeyword == cfg.keywords[info.indexOfKey]
    ensures r.0.resValue != res.resValue && r.0.resValue != "" ==>
              && MatchValuePattern(cfg.patterns, m, value).Some?
              && r.0.resValue == MatchValuePattern(cfg.patterns, m, value).value.value
              && r.0.indexOfPattern == MatchValuePattern(cfg.patterns, m, value).value.patternIndex
    ensures setKeyword && r.0.resValue != res.resValue ==> r.0.resKeyword == cfg.keywords[info.indexOfKey]
  {
    var cleared := if resetIfNoKey && info.indexOfKey < 0 then res.(resValue := "") else res;
    var (res1, accepted) := Accept(cfg.patterns, m, cleared, value);
    var info1 := info.(valueText := Some(unit));
    if !accepted then (res1, info1)
    else ((if setKeyword then res1.(resKeyword := cfg.keywords[info.indexOfKey]) else res1),
          info1.(selected := true))
  }

  /**
   * How one resolution may change a field: the value never gets shorter and
   * changes only to a first or a strictly longer value; the keyword changes only together with
   * the value and only to one of the field's keywords; a recorded pattern
   * index stays an index into the field's patterns; and when the value stays,
   * nothing changes.
   */
  predicate Advances(cfg: Config, res: Persisted, res2: Persisted)
  {
    && |res2.resValue| >= |res.resValue|
    && (res2.resValue == res.resValue ==> res2 == res)
    && (res2.resValue != res.resValue ==> res.resValue == "" || |res2.resValue| > |res.resValue|)
    && (res2.resKeyword != res.resKeyword ==> res2.resValue != res.resValue && res2.resKeyword in cfg.keywords)
    && (PatternIndexOk(cfg.patterns, res.indexOfPattern) ==> PatternIndexOk(cfg.patterns, res2.indexOfPattern))
  }

  /** `find_value_in_text`: the value after the keyword, or the assembled service address. */
  function InText(cfg: Config, m: Matcher, res: Persisted, info: Info): Option<(Persisted, Info)>
    requires WellFormed(cfg.keywords, info) && info.keyBlock.Some?
  {
    if info.indexInKeyBlock < 0 then
      if !EqualsIgnoreCase(cfg.name, ServiceAddress) || res.resKeyword != "" then None
      else
        var block := info.keyBlock.value;
        var value := AddressText(block, info.valueText.value.box.top);
        if MatchValuePattern(cfg.patterns, m, value).None? then None
        else Some(Settle(cfg, m, res, info, value, block[0], false, false))
    else
      var kw := info.keyBlock.value[info.indexInKeyBlock];
      var i := FirstInlineKey(cfg.keywords, cfg.patterns, m, kw.value);
      if i < 0 then None
      else Some(Settle(cfg, m, res, info, AfterKeyword(kw.value, cfg.keywords[i]).value, kw, true, false))
  }

  /** `find_value_in_right`: the leftmost unit of any block on the keyword's row, right of it. */
  function InRight(cfg: Config, m: Matcher, frame: Frame, res: Persisted, info: Info): Option<(Persisted, Info)>
    requires WellFormed(cfg.keywords, info)
  {
    if info.indexInKeyBlock < 0 then None
    else
      var kw := info.keyBlock.value[info.indexInKeyBlock];
      match Nearest(Flatten(frame), RightOf(kw.box))
      case None => None
      case Some(u) =>
        if MatchValuePattern(cfg.patterns, m, u.value).None? then None
        else Some(Settle(cfg, m, res, info, u.value, u, true, true))
  }

  /** `find_value_in_below`: for a field with patterns, the nearest lower unit of the keyword's block. */
  function InBelow(cfg: Config, m: Matcher, res: Persisted, info: Info): Option<(Persisted, Info)>
    requires WellFormed(cfg.keywords, info)
  {
    if info.indexInKeyBlock < 0 then None
    else if !HasPatterns(cfg.patterns) then None
    else
      var block := info.keyBlock.value;
      var kw := block[info.indexInKeyBlock];
      match Nearest(block, Below(kw.box))
      case None => None
      case Some(u) =>
        if MatchValuePattern(cfg.patterns, m, u.value).None? then None
        else Some(Settle(cfg, m, res, info, u.value, u, true, true))
  }

  /**
   * What `find_value_in_text` answers. With a keyword unit: a candidate exactly
   * when the text after some keyword validates, and then the first such keyword
   * in list order gives the value and the keyword unit is recorded. Without one:
   * only a "service address" field with no keyword resolved yet can get a
   * candidate, the assembled address, which must validate.
   */
  lemma InTextMeaning(cfg: Config, m: Matcher, res: Persisted, info: Info)
    requires WellFormed(cfg.keywords, info) && info.keyBlock.Some?
    ensures info.indexInKeyBlock >= 0 ==>
      var kw := info.keyBlock.value[info.indexInKeyBlock];
      && (InText(cfg, m, res, info).Some? <==>
            exists k :: 0 <= k < |cfg.keywords| && InlineValidates(kw.value, cfg.keywords[k], cfg.patterns, m))
      && (InText(cfg, m, res, info).Some? ==>
            exists k :: 0 <= k < |cfg.keywords| && InlineValidates(kw.value, cfg.keywords[k], cfg.patterns, m)
                        && (forall k' :: 0 <= k' < k ==> !InlineValidates(kw.value, cfg.keywords[k'], cfg.patterns, m))
                        && InText(cfg, m, res, info).value
                           == Settle(cfg, m, res, info, AfterKeyword(kw.value, cfg.keywords[k]).value, kw, true, false))
    ensures info.indexInKeyBlock < 0 && InText(cfg, m, res, info).Some? ==>
      && EqualsIgnoreCase(cfg.name, ServiceAddress) && res.resKeyword == ""
      && MatchValuePattern(cfg.patterns, m, AddressText(info.keyBlock.value, info.valueText.value.box.top)).Some?
      && InText(cfg, m, res, info).value.1.valueText == Some(info.keyBlock.value[0])
      && InText(cfg, m, res, info).value.0.resKeyword == res.resKeyword
    ensures info.indexInKeyBlock < 0 ==>
      var value := AddressText(info.keyBlock.value, info.valueText.value.box.top);
      && (InText(cfg, m, res, info).Some? <==>
            EqualsIgnoreCase(cfg.name, ServiceAddress) && res.resKeyword == ""
            && MatchValuePattern(cfg.patterns, m, value).Some?)
      && (InText(cfg, m, res, info).Some? ==>
            InText(cfg, m, res, info).value == Settle(cfg, m, res, info, value, info.keyBlock.value[0], false, false))
  {
    if info.indexInKeyBlock >= 0 {
      var kw := info.keyBlock.value[info.indexInKeyBlock];
      var i := FirstInlineKey(cfg.keywords, cfg.patterns, m, kw.value);
      if i < 0 {
        assert forall k :: 0 <= k < |cfg.keywords| ==> !InlineValidates(kw.value, cfg.keywords[k], cfg.patterns, m);
      }
    }
  }

  /**
   * What `find_value_in_right` answers: with a keyword unit, the candidate is a
   * unit of the frame on the keyword's row and right of it, leftmost among all
   * such units, whose text validates; it is offered like the keyword strategies
   * offer theirs. Without a keyword unit, or with no unit to the right, there is none.
   */
  lemma InRightMeaning(cfg: Config, m: Matcher, frame: Frame, res: Persisted, info: Info)
    requires WellFormed(cfg.keywords, info)
    ensures info.indexInKeyBlock < 0 ==> InRight(cfg, m, frame, res, info).None?
    ensures info.indexInKeyBlock >= 0 ==>
      var kw := info.keyBlock.value[info.indexInKeyBlock].box;
      && ((forall v :: v in Flatten(frame) ==> !Qualifies(RightOf(kw), v)) ==> InRight(cfg, m, frame, res, info).None?)
      && (InRight(cfg, m, frame, res, info).Some? ==>
            exists u :: && u in Flatten(frame) && Qualifies(RightOf(kw), u)
                        && (forall v :: v in Flatten(frame) && Qualifies(RightOf(kw), v) ==> u.box.left <= v.box.left)
                        && MatchValuePattern(cfg.patterns, m, u.value).Some?
                        && InRight(cfg, m, frame, res, info).value == Settle(cfg, m, res, info, u.value, u, true, true))
    ensures info.indexInKeyBlock >= 0 ==>
      var n := Nearest(Flatten(frame), RightOf(info.keyBlock.value[info.indexInKeyBlock].box));
      && (InRight(cfg, m, frame, res, info).Some? <==> n.Some? && MatchValuePattern(cfg.patterns, m, n.value.value).Some?)
      && (InRight(cfg, m, frame, res, info).Some? ==>
            InRight(cfg, m, frame, res, info).value == Settle(cfg, m, res, info, n.value.value, n.value, true, true))
  {
    if info.indexInKeyBlock >= 0 {
      var kw := info.keyBlock.value[info.indexInKeyBlock].box;
      var all := Flatten(frame);
      var i := NearestIndex(all, RightOf(kw));
      if i < 0 {
        forall v | v in all ensures !Qualifies(RightOf(kw), v) {
          var k :| 0 <= k < |all| && all[k] == v;
        }
      } else {
        assert all[i] in all;
        forall v | v in all && Qualifies(RightOf(kw), v) ensures all[i].box.left <= v.box.left {
          var k :| 0 <= k < |all| && all[k] == v;
        }
      }
    }
  }

  /**
   * What `find_value_in_below` answers: only for a field with patterns and a
   * keyword unit, the candidate is a unit of the keyword's block below it,
   * highest among all such units, whose text validates.
   */
  lemma InBelowMeaning(cfg: Config, m: Matcher, res: Persisted, info: Info)
    requires WellFormed(cfg.keywords, info)
    ensures info.indexInKeyBlock < 0 || !HasPatterns(cfg.patterns) ==> InBelow(cfg, m, res, info).None?
    ensures info.indexInKeyBlock >= 0 ==>
      var block := info.keyBlock.value;
      var kw := block[info.indexInKeyBlock].box;
      && ((forall v :: v in block ==> !Qualifies(Below(kw), v)) ==> InBelow(cfg, m, res, info).None?)
      && (InBelow(cfg, m, res, info).Some? ==>
            exists u :: && u in block && Qualifies(Below(kw), u)
                        && (forall v :: v in block && Qualifies(Below(kw), v) ==> u.box.top <= v.box.top)
                        && MatchValuePattern(cfg.patterns, m, u.value).Some?
                        && InBelow(cfg, m, res, info).value == Settle(cfg, m, res, info, u.value, u, true, true))
    ensures info.indexInKeyBlock >= 0 && HasPatterns(cfg.patterns) ==>
      var block := info.keyBlock.value;
      var n := Nearest(block, Below(block[info.indexInKeyBlock].box));
      && (InBelow(cfg, m, res, info).Some? <==> n.Some? && MatchValuePattern(cfg.patterns, m, n.value.value).Some?)
      && (InBelow(cfg, m, res, info).Some? ==>
            InBelow(cfg, m, res, info).value == Settle(cfg, m, res, info, n.value.value, n.value, true, true))
  {
    if info.indexInKeyBlock >= 0 {
      var block := info.keyBlock.value;
      var kw := block[info.indexInKeyBlock].box;
      var i := NearestIndex(block, Below(kw));
      if i < 0 {
        forall v | v in block ensures !Qualifies(Below(kw), v) {
          var k :| 0 <= k < |block| && block[k] == v;
        }
      } else {
        assert block[i] in block;
        forall v | v in block && Qualifies(Below(kw), v) ensures block[i].box.top <= v.box.top {
          var k :| 0 <= k < |block| && block[k] == v;
        }
      }
    }
  }

  /**
   * `find_value` for one field: the strategies in order, stopping at the first
   * whose candidate validates, accepted or not. A field without a hit block is
   * left alone; otherwise the field advances, is selected once its value
   * changes, and keeps its keyword hit.
   */
  function ResolveField(cfg: Config, m: Matcher, frame: Frame, res: Persisted, info: Info): (r: (Persisted, Info))
    requires WellFormed(cfg.keywords, info)
    ensures info.keyBlock.None? ==> r == (res, info)
    ensures Advances(cfg, res, r.0)
    ensures r.1.selected <==> info.selected || r.0.resValue != res.resValue
    ensures WellFormed(cfg.keywords, r.1)
    ensures r.1.indexOfKey == info.indexOfKey && r.1.keyBlock == info.keyBlock
            && r.1.indexInKeyBlock == info.indexInKeyBlock
  {
    if info.keyBlock.None? then (res, info)
    else match InText(cfg, m, res, info)
      case Some(p) => p
      case None =>
        match InRight(cfg, m, frame, res, info)
        case Some(p) => p
        case None =>
          match InBelow(cfg, m, res, info)
          case Some(p) => p
          case None => (res, info)
  }

  /**
   * The order of `find_value`'s chain: the first strategy that has a validated
   * candidate decides the field, whether or not the candidate is accepted, and
   * the later strategies are not tried; with none, the field is left alone.
   */
  lemma ChainStopsAtFirstCandidate(cfg: Config, m: Matcher, frame: Frame, res: Persisted, info: Info)
    requires WellFormed(cfg.keywords, info) && info.keyBlock.Some?
    ensures InText(cfg, m, res, info).Some? ==> ResolveField(cfg, m, frame, res, info) == InText(cfg, m, res, info).value
    ensures InText(cfg, m, res, info).None? && InRight(cfg, m, frame, res, info).Some? ==>
              ResolveField(cfg, m, frame, res, info) == InRight(cfg, m, frame, res, info).value
    ensures InText(cfg, m, res, info).None? && InRight(cfg, m, frame, res, info).None? && InBelow(cfg, m, res, info).Some? ==>
              ResolveField(cfg, m, frame, res, info) == InBelow(cfg, m, res, info).value
    ensures InText(cfg, m, res, info).None? && InRight(cfg, m, frame, res, info).None? && InBelow(cfg, m, res, info).None? ==>
              ResolveField(cfg, m, frame, res, info) == (res, info)
  {
  }

  /**
   * The strategy chain stops at the first validated candidate even when it is
   * not accepted: a short inline value shadows a longer one to the right.
   */
  lemma ValidatedInlineShadowsRight(cfg: Config, m: Matcher, frame: Frame, res: Persisted, info: Info)
    requires WellFormed(cfg.keywords, info) && info.keyBlock.Some? && info.indexInKeyBlock >= 0
    requires FirstInlineKey(cfg.keywords, cfg.patterns, m, info.keyBlock.value[info.indexInKeyBlock].value) >= 0
    ensures ResolveField(cfg, m, frame, res, info) == InText(cfg, m, res, info).value
  {
  }

  // ---------------------------------------------------------------------------
  // receiveDetections

  function Configs(fs: seq<Field>): (r: seq<Config>)
  {
    seq(|fs|, k requires 0 <= k < |fs| => fs[k].cfg)
  }

  function ResKeywords(fs: seq<Field>): (r: seq<string>)
  {
    seq(|fs|, k requires 0 <= k < |fs| => fs[k].res.resKeyword)
  }

  /** The frame reset applied to every field. */
  function ResetInfos(fs: seq<Field>): (r: seq<Info>)
  {
    seq(|fs|, k requires 0 <= k < |fs| => Reset(fs[k].info))
  }

  predicate FieldsWellFormed(fs: seq<Field>)
  {
    forall k :: 0 <= k < |fs| ==> WellFormed(fs[k].cfg.keywords, fs[k].info)
  }

  /** The records after the keyword scan of a frame. */
  function Located(country: string, frame: Frame, fs: seq<Field>): (r: seq<Info>)
    requires FieldsWellFormed(fs)
    ensures AllWellFormed(Configs(fs), r)
    ensures forall k :: 0 <= k < |r| ==> !r[k].selected
  {
    var infos := ResetInfos(fs);
    assert AllWellFormed(Configs(fs), infos);
    KeywordPassWellFormed(Configs(fs), ResKeywords(fs), country, frame, |frame|, infos);
    KeywordPass(Configs(fs), ResKeywords(fs), country, frame, |frame|, infos)
  }

  lemma LocatedSkips(country: string, frame: Frame, fs: seq<Field>)
    requires FieldsWellFormed(fs)
    ensures forall k :: 0 <= k < |fs| && NeverLocated(fs[k].cfg) ==> Located(country, frame, fs)[k] == Reset(fs[k].info)
  {
    forall k | 0 <= k < |fs| && NeverLocated(fs[k].cfg)
      ensures Located(country, frame, fs)[k] == Reset(fs[k].info)
    {
      KeywordPassSkips(Configs(fs), ResKeywords(fs), country, frame, |frame|, ResetInfos(fs), k);
    }
  }

  /** `find_value` for one located field. */
  function Resolved(m: Matcher, frame: Frame, f: Field, info: Info): (r: Field)
    requires WellFormed(f.cfg.keywords, info) && !info.selected
    ensures r.cfg == f.cfg && WellFormed(r.cfg.keywords, r.info)
    ensures Advances(f.cfg, f.res, r.res)
    ensures r.info.selected <==> r.res.resValue != f.res.resValue
    ensures info.keyBlock.None? ==> r.res == f.res
  {
    var p := ResolveField(f.cfg, m, frame, f.res, info);
    Field(f.cfg, p.0, p.1)
  }

  /**
   * `receiveDetections` on one frame: reset, keyword scan, then value
   * resolution field by field. Every field advances, a field with no keywords
   * that is not a "service address" keeps its result, and a field is selected
   * exactly when its value changed.
   */
  function ProcessFrame(country: string, m: Matcher, frame: Frame, fs: seq<Field>): (r: seq<Field>)
    requires FieldsWellFormed(fs)
    ensures |r| == |fs| && FieldsWellFormed(r)
    ensures forall k :: 0 <= k < |fs| ==> r[k].cfg == fs[k].cfg
    ensures forall k :: 0 <= k < |fs| ==> Advances(fs[k].cfg, fs[k].res, r[k].res)
    ensures forall k :: 0 <= k < |fs| ==> (r[k].info.selected <==> r[k].res.resValue != fs[k].res.resValue)
    ensures forall k :: 0 <= k < |fs| && NeverLocated(fs[k].cfg) ==> r[k].res == fs[k].res
  {
    var located := Located(country, frame, fs);
    LocatedSkips(country, frame, fs);
    seq(|fs|, k requires 0 <= k < |fs| => Resolved(m, frame, fs[k], located[k]))
  }

  /** Two resolutions in a row advance a field as one does. */
  lemma AdvancesTransitive(cfg: Config, r0: Persisted, r1: Persisted, r2: Persisted)
    requires Advances(cfg, r0, r1) && Advances(cfg, r1, r2)
    ensures Advances(cfg, r0, r2)
  {
    if r2.resKeyword != r0.resKeyword && r1.resKeyword != r0.resKeyword {
      assert r1.resValue != r0.resValue;
    }
  }

  /** A sequence of frames, processed in order. */
  function Session(country: string, m: Matcher, frames: seq<Frame>, fs: seq<Field>): (r: seq<Field>)
    requires FieldsWellFormed(fs)
    ensures |r| == |fs| && FieldsWellFormed(r)
    ensures forall k :: 0 <= k < |fs| ==> r[k].cfg == fs[k].cfg
  {
    if frames == [] then fs
    else ProcessFrame(country, m, frames[|frames| - 1], Session(country, m, frames[..|frames| - 1], fs))
  }

  /**
   * Over any number of frames a field's value never gets shorter, is replaced
   * only by a strictly longer one once set, and its keyword is one of its own;
   * a field without keywords that is not a "service address" never changes.
   */
  lemma {:induction false} SessionAdvances(country: string, m: Matcher, frames: seq<Frame>, fs: seq<Field>)
    requires FieldsWellFormed(fs)
    ensures forall k :: 0 <= k < |fs| ==> Advances(fs[k].cfg, fs[k].res, Session(country, m, frames, fs)[k].res)
    ensures forall k :: 0 <= k < |fs| && NeverLocated(fs[k].cfg) ==> Session(country, m, frames, fs)[k].res == fs[k].res
  {
    if frames != [] {
      var before := Session(country, m, frames[..|frames| - 1], fs);
      SessionAdvances(country, m, frames[..|frames| - 1], fs);
      var after := ProcessFrame(country, m, frames[|frames| - 1], before);
      forall k | 0 <= k < |fs| ensures Advances(fs[k].cfg, fs[k].res, after[k].res) {
        AdvancesTransitive(fs[k].cfg, fs[k].res, before[k].res, after[k].res);
      }
    }
  }

  /**
   * Once a session has given a field a value, every later frame keeps a value
   * at least as long, so a set field never goes back to the default display.
   */
  lemma {:induction false} SetValueStaysSet(country: string, m: Matcher, frames: seq<Frame>, later: seq<Frame>,
                                            fs: seq<Field>, k: nat)
    requires FieldsWellFormed(fs) && k < |fs|
    requires Session(country, m, frames, fs)[k].res.resValue != ""
    ensures Session(country, m, frames + later, fs)[k].res.resValue != ""
    decreases |later|
  {
    if later == [] {
      assert frames + later == frames;
    } else {
      var init := later[..|later| - 1];
      SetValueStaysSet(country, m, frames, init, fs, k);
      assert (frames + later)[..|frames + later| - 1] == frames + init;
    }
  }
}
