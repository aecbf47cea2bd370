/** The extraction cascade: keyword rejection, part-number tables, grammar, cross-checks,
    compatibility matrix, confidence gate, prefilter. The pipeline always runs it without the
    language-model callback, so that stage answers "low confidence". */
module Cascade {
  import opened Models
  import opened Rounding
  import opened Money
  import opened Grammar
  import Market
  import Prefilter
  import Thresholds

  const INCOHERENT := 0.30
  const PC4_MISMATCH := 0.40
  const UNKNOWN_BASIS_CAP := 0.70

  function Min(a: real, b: real): real { if b < a then b else a }

  predicate UnknownSize(s: Spec) { s.capacity.Some? && s.capacity.value !in VALID_CAPACITIES }

  predicate SpeedMismatch(s: Spec, scan: Scan) {
    scan.pc4Speed.Some? && s.speed.Some? && scan.pc4Speed != s.speed
  }

  function WithConfidence(s: Spec, c: real): Spec {
    s.(confidence := if c > 1.0 then 1.0 else if c < 0.0 then 0.0 else c)
  }

  /** Cross-checks change nothing but the confidence, lower it to the smallest cap that applies,
      and no further. */
  function Check(s: Spec, scan: Scan): (r: Spec)
    ensures r.(confidence := s.confidence) == s
    ensures r.confidence <= s.confidence || (s.confidence < 0.0 && r.confidence == 0.0)
    ensures !s.Coherent() || UnknownSize(s) ==> r.confidence <= 0.30
    ensures SpeedMismatch(s, scan) ==> r.confidence <= 0.40
    ensures s.basis == UnknownBasis ==> r.confidence <= 0.70
    ensures 0.0 <= s.confidence <= 1.0 ==>
      || r.confidence == s.confidence
      || (r.confidence == 0.30 && (!s.Coherent() || UnknownSize(s)))
      || (r.confidence == 0.40 && SpeedMismatch(s, scan))
      || (r.confidence == 0.70 && s.basis == UnknownBasis)
  {
    var c0 := s.confidence;
    var c1 := if !s.Coherent() then Min(c0, INCOHERENT) else c0;
    var c2 := if UnknownSize(s) then Min(c1, INCOHERENT) else c1;
    var c3 := if SpeedMismatch(s, scan) then Min(c2, PC4_MISMATCH) else c2;
    var c4 := if s.basis == UnknownBasis then Min(c3, UNKNOWN_BASIS_CAP) else c3;
    WithConfidence(s, c4)
  }

  function Rejected(s: Spec, why: Reason): Spec { s.(reject := Some(why)) }

  predicate Accepts(m: Matrix, capacity: int) {
    capacity !in m.capacityReject && (m.capacityAccept == {} || capacity in m.capacityAccept)
  }

  /** What the compatibility matrix admits: the capacity not refused, and listed if any are; no
      unregistered ECC; a listed speed. */
  predicate MatrixAccepts(s: Spec, m: Matrix) {
    && (s.capacity.Some? ==>
          && s.capacity.value !in m.capacityReject
          && (m.capacityAccept == {} || s.capacity.value in m.capacityAccept))
    && s.kind != UdimmEcc
    && (s.speed.Some? ==> s.speed.value in m.speeds)
  }

  /** The matrix may add a rejection and changes nothing else. */
  function Qualify(s: Spec, m: Matrix): (r: Spec)
    ensures r.(reject := s.reject) == s
    ensures !s.Qualified() ==> r == s
    ensures r.Qualified() <==> s.Qualified() && MatrixAccepts(s, m)
  {
    if !s.Qualified() then s
    else if s.capacity.Some? && s.capacity.value in m.capacityReject then
      Rejected(s, if s.capacity.value == 4 then Capacity4Gb else CapacityReject)
    else if s.capacity.Some? && m.capacityAccept != {} && s.capacity.value !in m.capacityAccept then
      Rejected(s, CapacityReject)
    else if s.kind == UdimmEcc then Rejected(s, UdimmNonEcc)
    else if s.speed.Some? && s.speed.value !in m.speeds then Rejected(s, SpeedRejected)
    else s
  }

  /** A recognised reference fixes capacity, kind and speed; the grammar adds count and basis. */
  function FromPartNumber(d: Decoded, parsed: Spec): Spec {
    match d
    case RejectedModule =>
      Spec(None, 1, None, UdimmEcc, None, UnknownBasis, 1.0, PartNumber, Some(UdimmNonEcc))
    case Module(capacity, kind, speed) =>
      Spec(Some(capacity), parsed.count,
           Some(if capacity * parsed.count != 0 then capacity * parsed.count else capacity),
           kind, if speed.Some? && speed.value != 0 then speed else parsed.speed,
           parsed.basis, 1.0, PartNumber, None)
  }

  /** Certain rejections come before the confidence gate; the prefilter is only asked below it. */
  function RulesPath(checked: Spec, m: Matrix, minConfidence: real, prefiltered: bool): Spec {
    var qualified := Qualify(checked, m);
    if !qualified.Qualified() then qualified
    else if checked.confidence >= minConfidence && checked.basis != UnknownBasis then qualified
    else if prefiltered then Rejected(checked, BestCaseAboveCeiling)
    else Rejected(checked, LowConfidence)
  }

  predicate PrefilterRejects(price: real, scan: Scan, ceiling: Option<real>) {
    var best := Prefilter.BestCase(price, scan);
    ceiling.Some? && best.Some? && best.value > ceiling.value
  }

  /** `ceiling` is given only when the language model is enabled; it arms the prefilter. */
  function Run(price: real, scan: Scan, m: Matrix, minConfidence: real, ceiling: Option<real>): Spec {
    var parsed := Parse(scan);
    if scan.keyword.Some? then Rejected(WithConfidence(parsed, 1.0), scan.keyword.value)
    else if scan.decoded.Some? then Qualify(FromPartNumber(scan.decoded.value, parsed), m)
    else RulesPath(Check(parsed, scan), m, minConfidence, PrefilterRejects(price, scan, ceiling))
  }

  /** The cascade as the pipeline runs it with the language model off: a function of the text. */
  function Extract(scan: Scan, m: Matrix, minConfidence: real): Spec {
    Run(0.0, scan, m, minConfidence, None)
  }

  lemma WithoutCeilingPriceIsIrrelevant(price: real, scan: Scan, m: Matrix, minConfidence: real)
    ensures Run(price, scan, m, minConfidence, None) == Extract(scan, m, minConfidence)
  {
  }

  lemma QualifyReasons(s: Spec, m: Matrix)
    requires s.reject != Some(LowConfidence)
    ensures Qualify(s, m).reject != Some(LowConfidence)
  {
  }

  lemma CeilingOnRulesPath(checked: Spec, m: Matrix, minConfidence: real)
    requires checked.Qualified()
    ensures var unarmed := RulesPath(checked, m, minConfidence, false);
      RulesPath(checked, m, minConfidence, true) ==
        if unarmed.reject == Some(LowConfidence) then unarmed.(reject := Some(BestCaseAboveCeiling)) else unarmed
  {
    QualifyReasons(checked, m);
  }

  /** Arming the prefilter changes nothing but one answer: "low confidence" becomes "best case above
      the ceiling" exactly when the prefilter rejects the price. */
  lemma CeilingTurnsLowConfidence(price: real, scan: Scan, m: Matrix, minConfidence: real, ceiling: real)
    requires scan.keyword != Some(LowConfidence)
    ensures var unarmed := Extract(scan, m, minConfidence);
      Run(price, scan, m, minConfidence, Some(ceiling)) ==
        if unarmed.reject == Some(LowConfidence) && PrefilterRejects(price, scan, Some(ceiling))
        then unarmed.(reject := Some(BestCaseAboveCeiling))
        else unarmed
  {
    var parsed := Parse(scan);
    if scan.decoded.Some? {
      QualifyReasons(FromPartNumber(scan.decoded.value, parsed), m);
    }
    CeilingOnRulesPath(Check(parsed, scan), m, minConfidence);
    hide Parse, Check, Qualify, RulesPath, PrefilterRejects, FromPartNumber;
  }

  /** A rejecting keyword settles it, with certainty, before anything else is looked at. */
  lemma KeywordSettlesIt(price: real, scan: Scan, m: Matrix, minConfidence: real, ceiling: Option<real>)
    requires scan.keyword.Some?
    ensures Run(price, scan, m, minConfidence, ceiling).reject == scan.keyword
    ensures Run(price, scan, m, minConfidence, ceiling).confidence == 1.0
  {
  }

  /** A recognised reference speaks for capacity, kind and, if it knows it, speed; the text for count
      and basis. */
  lemma PartNumberDecides(d: Decoded, parsed: Spec)
    requires d.Module?
    ensures var s := FromPartNumber(d, parsed);
      && s.Qualified() && s.capacity == Some(d.capacity) && s.kind == d.kind
      && s.count == parsed.count && s.basis == parsed.basis
      && (d.capacity != 0 && parsed.count != 0 ==> s.total == Some(d.capacity * parsed.count))
      && (d.speed.Some? && d.speed.value != 0 ==> s.speed == d.speed)
      && (d.speed.None? ==> s.speed == parsed.speed)
  {
  }

  /** Exactly what leaves the cascade unrejected: no keyword, a matrix that accepts, and either a known
      part or a reading with a known price basis whose confidence, after the cross-checks, reaches
      the gate. */
  lemma UnrejectedExactly(price: real, scan: Scan, m: Matrix, minConfidence: real, ceiling: Option<real>)
    ensures Run(price, scan, m, minConfidence, ceiling).Qualified() <==>
      && scan.keyword.None?
      && if scan.decoded.Some? then
           scan.decoded.value.Module? && MatrixAccepts(FromPartNumber(scan.decoded.value, Parse(scan)), m)
         else
           && MatrixAccepts(Parse(scan), m) && Parse(scan).basis != UnknownBasis
           && Check(Parse(scan), scan).confidence >= minConfidence
  {
    var parsed := Parse(scan);
    assert parsed.Qualified();
    if scan.decoded.Some? && scan.decoded.value.Module? {
      PartNumberDecides(scan.decoded.value, parsed);
    }
    hide Parse, PrefilterRejects;
  }

  lemma UnrejectedIsAccepted(price: real, scan: Scan, m: Matrix, minConfidence: real, ceiling: Option<real>)
    ensures var s := Run(price, scan, m, minConfidence, ceiling);
      s.Qualified() ==> MatrixAccepts(s, m) && scan.keyword.None?
  {
    hide Parse, PrefilterRejects, FromPartNumber;
  }

  lemma PartNumberIsCoherent(d: Decoded, parsed: Spec)
    ensures FromPartNumber(d, parsed).Coherent() && FromPartNumber(d, parsed).via == PartNumber
  {
    if d.Module? && d.capacity * parsed.count == 0 && parsed.count >= 1 {
      assert d.capacity == 0;
    }
  }

  lemma RulesPathIsCoherent(checked: Spec, m: Matrix, minConfidence: real, prefiltered: bool)
    requires minConfidence > INCOHERENT
    requires !checked.Coherent() ==> checked.confidence <= INCOHERENT
    ensures var s := RulesPath(checked, m, minConfidence, prefiltered);
      s.via == checked.via && (s.Qualified() ==> s.Coherent() && s.basis != UnknownBasis)
  {
  }

  /** What leaves the cascade unrejected: never the language model's, coherent if the confidence
      gate lies above the cap for incoherent readings, and with a known price basis unless a
      part number vouches for the module. */
  lemma UnrejectedIsCoherent(price: real, scan: Scan, m: Matrix, minConfidence: real, ceiling: Option<real>)
    requires minConfidence > INCOHERENT
    ensures var s := Run(price, scan, m, minConfidence, ceiling);
      s.via != Llm && (s.Qualified() ==> s.Coherent() && (s.basis == UnknownBasis ==> s.via == PartNumber))
  {
    var parsed := Parse(scan);
    if scan.decoded.Some? {
      PartNumberIsCoherent(scan.decoded.value, parsed);
    }
    RulesPathIsCoherent(Check(parsed, scan), m, minConfidence, PrefilterRejects(price, scan, ceiling));
  }

  /** "RDIMM 512 Go total 2x8Go": a declared total against count times capacity. */
  const TWICE_EIGHT := Scan(
    [DigitRun([5, 1, 2], false, true), DigitRun([2], false, false), DigitRun([8], true, true)],
    [512], [(2, 8)], [], [[], [], [2], [], [], [], [], [], []], [],
    false, false, Rdimm, None, None, None, None)

  lemma SizesOfTwiceEight()
    ensures Written(TWICE_EIGHT.runs, 512) && Written(TWICE_EIGHT.runs, 2) && WrittenWithUnit(TWICE_EIGHT.runs, 8)
  {
    var runs := TWICE_EIGHT.runs;
    Prefilter.TwoDigits(5, 1);
    assert [5, 1, 2][..2] == [5, 1] && DigitsValue([5, 1, 2]) == 512;
    assert [2][..0] == [] && DigitsValue([2]) == 2;
    assert [8][..0] == [] && DigitsValue([8]) == 8;
    assert runs[0] in runs && runs[1] in runs && runs[2] in runs;
  }

  lemma FlattenTwiceEight()
    ensures Flatten(TWICE_EIGHT.multipliers) == [2]
  {
    var t := TWICE_EIGHT.multipliers;
    Prefilter.FlattenEmpty(t[3..]);
    assert t[2..][1..] == t[3..] && t[1..][1..] == t[2..];
    assert Flatten(t[2..]) == [2] && Flatten(t[1..]) == [2];
  }

  lemma TwiceEightIsConsistent()
    ensures Consistent(TWICE_EIGHT)
  {
    SizesOfTwiceEight();
    FlattenTwiceEight();
    hide Written, WrittenWithUnit, Flatten;
    assert TWICE_EIGHT.nxm[1..] == [] && Lefts(TWICE_EIGHT.nxm) == [2];
  }

  lemma TwiceEightIsIncoherent(m: Matrix, minConfidence: real)
    requires Accepts(m, 8) && minConfidence <= INCOHERENT
    ensures Consistent(TWICE_EIGHT)
    ensures Extract(TWICE_EIGHT, m, minConfidence).Qualified() && !Extract(TWICE_EIGHT, m, minConfidence).Coherent()
  {
    TwiceEightIsConsistent();
    var s := TWICE_EIGHT;
    assert UsableNxm(s) == Some((2, 8));
    assert Parse(s) == Spec(Some(8), 2, Some(512), Rdimm, None, Lot, 0.95, Rules, None);
    hide Parse, Consistent;
  }

  /** The gate's position is exactly what decides it: over the scans of texts, some text passes
      incoherent if and only if the minimum confidence is at or below the cap. */
  lemma CoherenceNeedsTheGate(m: Matrix, minConfidence: real)
    requires Accepts(m, 8)
    ensures (forall scan | Consistent(scan) :: var s := Extract(scan, m, minConfidence); s.Qualified() ==> s.Coherent())
       <==> minConfidence > 0.30
  {
    if minConfidence > INCOHERENT {
      forall scan | Consistent(scan) ensures var s := Extract(scan, m, minConfidence); s.Qualified() ==> s.Coherent() {
        UnrejectedIsCoherent(0.0, scan, m, minConfidence, None);
      }
    } else {
      TwiceEightIsIncoherent(m, minConfidence);
      assert Consistent(TWICE_EIGHT);
    }
  }

  lemma RulesPathReasons(checked: Spec, m: Matrix, minConfidence: real, prefiltered: bool)
    requires checked.Qualified()
    requires RulesPath(checked, m, minConfidence, prefiltered).reject == Some(BestCaseAboveCeiling)
    ensures prefiltered
  {
  }

  lemma OnlyThePrefilterSaysSo(price: real, scan: Scan, m: Matrix, minConfidence: real, ceiling: Option<real>)
    requires Run(price, scan, m, minConfidence, ceiling).reject == Some(BestCaseAboveCeiling)
    requires scan.keyword != Some(BestCaseAboveCeiling)
    ensures PrefilterRejects(price, scan, ceiling)
  {
    var parsed := Parse(scan);
    if scan.keyword.None? && scan.decoded.None? {
      RulesPathReasons(Check(parsed, scan), m, minConfidence, PrefilterRejects(price, scan, ceiling));
    }
  }

  lemma SpeedIsKnownCode(scan: Scan)
    requires Consistent(scan)
    ensures scan.pc4Speed.Some? ==> scan.speed == scan.pc4Speed
  {
  }

  /** Within the over-count family the confidence is at least 0.85: the prefilter is asked only if
      the gate lies above that. */
  lemma OvercountIsConfident(scan: Scan)
    requires Consistent(scan) && Prefilter.PlainOvercount(scan) && Parse(scan).total.Some?
    ensures Check(Parse(scan), scan) == Parse(scan) && Parse(scan).confidence >= 0.85
    ensures Parse(scan).basis != UnknownBasis && Parse(scan).Coherent()
  {
    hide Consistent, Check;
    assert scan.pc4Speed.Some? ==> scan.speed == scan.pc4Speed by { SpeedIsKnownCode(scan); }
    assert !SpeedMismatch(Parse(scan), scan);
    assert Parse(scan).capacity.value * Parse(scan).count == Parse(scan).total.value;
    var s, r := Parse(scan), Check(Parse(scan), scan);
    assert r.(confidence := s.confidence) == s;
  }

  lemma GateIsAboveConfidence(checked: Spec, m: Matrix, minConfidence: real, prefiltered: bool)
    requires checked.Qualified() && checked.basis != UnknownBasis
    requires RulesPath(checked, m, minConfidence, prefiltered).reject == Some(BestCaseAboveCeiling)
    ensures checked.confidence < minConfidence
  {
  }

  lemma RejectedOvercountNeedsAHighGate(price: real, scan: Scan, m: Matrix, minConfidence: real, ceiling: Option<real>)
    requires Consistent(scan) && Prefilter.PlainOvercount(scan) && Parse(scan).total.Some?
    requires Run(price, scan, m, minConfidence, ceiling).reject == Some(BestCaseAboveCeiling)
    requires scan.keyword != Some(BestCaseAboveCeiling)
    ensures minConfidence > 0.85
  {
    OvercountIsConfident(scan);
    hide Check, Parse, Consistent, Prefilter.PlainOvercount;
    if scan.keyword.None? && scan.decoded.None? {
      GateIsAboveConfidence(Parse(scan), m, minConfidence, PrefilterRejects(price, scan, ceiling));
    }
  }

  /** The prefilter inside the cascade: when it rejects a listing priced in whole cents, of a currency
      whose unit is worth at least a euro, no reading of the text that keeps the grammar's total could have been a deal, whoever produced it
      and whatever its basis: always with a gate at or below 0.85, and above it as long as the count
      was not over-read. */
  lemma PrefilterRejectionIsSound(
    l: Listing, m: Matrix, p: Policy, s: Spec, index: Index, now: int, observation: bool)
    requires l.Valid() && Prefilter.IsWorthAEuro(l.currency, p.rates) && WholeCents(l.price)
    requires p.shippingEstimate >= 0.0 && p.ceiling >= 0.0
    requires !Prefilter.PlainOvercount(l.text.scan) || (Consistent(l.text.scan) && p.minConfidence <= 0.85)
    requires Run(l.price, l.text.scan, m, p.minConfidence, Some(p.ceiling)).reject == Some(BestCaseAboveCeiling)
    requires l.text.scan.keyword != Some(BestCaseAboveCeiling)
    requires s.total == Parse(l.text.scan).total
    ensures !Thresholds.Evaluate(l, s, index, p, now, observation).IsDeal?
  {
    var scan := l.text.scan;
    OnlyThePrefilterSaysSo(l.price, scan, m, p.minConfidence, Some(p.ceiling));
    if s.total.Some? {
      if Prefilter.PlainOvercount(scan) {
        RejectedOvercountNeedsAHighGate(l.price, scan, m, p.minConfidence, Some(p.ceiling));
      }
      hide Consistent, Parse, Run, Prefilter.PlainOvercount;
      Prefilter.BoundDominatesParse(scan);
    }
    Prefilter.RejectionHidesNoDeal(l, scan, s, index, p, now, observation);
  }

  /** The cascade rejects a listing, of a currency whose unit is worth at least a euro, for its best
      case, although the grammar's own reading of its text is a deal. */
  ghost predicate HidesOwnReading(l: Listing, m: Matrix, p: Policy, index: Index, now: int, observation: bool) {
    && l.Valid() && Prefilter.IsWorthAEuro(l.currency, p.rates) && WholeCents(l.price)
    && p.shippingEstimate >= 0.0 && p.ceiling >= 0.0
    && Consistent(l.text.scan) && l.text.scan.keyword != Some(BestCaseAboveCeiling)
    && Run(l.price, l.text.scan, m, p.minConfidence, Some(p.ceiling)).reject == Some(BestCaseAboveCeiling)
    && Thresholds.Evaluate(l, Parse(l.text.scan), index, p, now, observation).IsDeal?
  }

  /** A whole lot of twenty modules at 600 EUR, shipping free. */
  const LOT_AT_600 := Listing("s", "1", Text("lot de 20 barrettes 16go", Prefilter.LOT_OF_TWENTY), 600.0, "EUR",
                              Some(0.0), BuyNow, None, None, None, Marker, true)

  lemma CentsOf600()
    ensures WholeCents(600.0)
  {
    Integral(60000.0, 60000);
  }

  lemma BestCaseOf600()
    ensures Prefilter.BestCase(600.0, Prefilter.LOT_OF_TWENTY).Some?
    ensures Prefilter.BestCase(600.0, Prefilter.LOT_OF_TWENTY).value > 2.0
  {
    Prefilter.LotOfTwentyIsUnderbound();
    hide Parse, Consistent, Prefilter.PlainOvercount, Prefilter.OptimisticTotal;
    assert 600.0 / 256.0 * 10000.0 == 23437.5;
  }

  lemma LotAt600IsRejected(m: Matrix, p: Policy)
    requires Accepts(m, 16) && p.ceiling == 2.0 && p.minConfidence > 0.85
    ensures Run(600.0, Prefilter.LOT_OF_TWENTY, m, p.minConfidence, Some(p.ceiling)).reject == Some(BestCaseAboveCeiling)
  {
    var scan := Prefilter.LOT_OF_TWENTY;
    Prefilter.LotOfTwentyIsUnderbound();
    OvercountIsConfident(scan);
    BestCaseOf600();
    hide Parse, Check, Consistent, Prefilter.PlainOvercount, Prefilter.BestCase;
  }

  lemma LotAt600IsADeal(p: Policy)
    requires p == Policy(2.0, 0.0, 0.5, 8, p.minConfidence, 12.0, map[], 0, 0.0)
    ensures Thresholds.Evaluate(LOT_AT_600, Spec(Some(16), 20, Some(320), UnknownKind, None, Lot, 0.85, Rules, None), [], p, 0, true).IsDeal?
  {
    var s := Spec(Some(16), 20, Some(320), UnknownKind, None, Lot, 0.85, Rules, None);
    assert Thresholds.LotPrice(LOT_AT_600, s, p.rates) == Some(600.0);
    assert Thresholds.LotCost(LOT_AT_600, s, p) == 600.0;
    assert Thresholds.RulePerGb(LOT_AT_600, s, p) == 1.875;
    Thresholds.DealExactly(LOT_AT_600, s, [], p, 0, true);
  }

  lemma LotAt600IsHidden(m: Matrix, p: Policy)
    requires Accepts(m, 16) && p == Policy(2.0, 0.0, 0.5, 8, p.minConfidence, 12.0, map[], 0, 0.0) && p.minConfidence > 0.85
    ensures HidesOwnReading(LOT_AT_600, m, p, [], 0, true)
  {
    Prefilter.LotOfTwentyIsUnderbound();
    LotAt600IsRejected(m, p);
    LotAt600IsADeal(p);
    hide Run, Parse, Consistent, Thresholds.Evaluate;
    CentsOf600();
  }

  /** In such currencies the grammar's own reading is ever hidden if and only if the gate lies above
      0.85. */
  lemma OwnReadingIsHiddenExactly(m: Matrix, minConfidence: real)
    requires Accepts(m, 16)
    ensures (exists l: Listing, p: Policy, index, now, observation ::
               p.minConfidence == minConfidence && HidesOwnReading(l, m, p, index, now, observation))
       <==> minConfidence > 0.85
  {
    forall l: Listing, p: Policy, index, now, observation |
      p.minConfidence == minConfidence && HidesOwnReading(l, m, p, index, now, observation)
      ensures minConfidence > 0.85
    {
      if minConfidence <= 0.85 {
        PrefilterRejectionIsSound(l, m, p, Parse(l.text.scan), index, now, observation);
      }
    }
    if minConfidence > 0.85 {
      var p := Policy(2.0, 0.0, 0.5, 8, minConfidence, 12.0, map[], 0, 0.0);
      LotAt600IsHidden(m, p);
      assert HidesOwnReading(LOT_AT_600, m, p, [], 0, true);
    }
  }

  // The raw price is compared. What a rejection hides, exactly.

  /** A rejection for the best case, of a valid listing priced in whole cents, hides a deal among the
      readings within the bound. */
  ghost predicate HidesADeal(l: Listing, m: Matrix, p: Policy, index: Index, now: int, observation: bool) {
    && l.Valid() && WholeCents(l.price) && p.shippingEstimate >= 0.0 && p.ceiling >= 0.0
    && Consistent(l.text.scan) && l.text.scan.keyword != Some(BestCaseAboveCeiling)
    && Run(l.price, l.text.scan, m, p.minConfidence, Some(p.ceiling)).reject == Some(BestCaseAboveCeiling)
    && Prefilter.OptimisticTotal(l.text.scan).Some?
    && Prefilter.HasDeal(l, 1, Prefilter.OptimisticTotal(l.text.scan).value, index, p, now, observation)
  }

  lemma WorthAEuroHidesNothing(l: Listing, m: Matrix, p: Policy, index: Index, now: int, observation: bool)
    requires Prefilter.IsWorthAEuro(l.currency, p.rates)
    ensures !HidesADeal(l, m, p, index, now, observation)
  {
    if HidesADeal(l, m, p, index, now, observation) {
      OnlyThePrefilterSaysSo(l.price, l.text.scan, m, p.minConfidence, Some(p.ceiling));
      hide Run, Consistent, Thresholds.Evaluate, Prefilter.OptimisticTotal, Prefilter.IsWorthAEuro;
      var bound := Prefilter.OptimisticTotal(l.text.scan).value;
      var s: Spec :| s.total.Some? && 1 <= s.total.value <= bound && Thresholds.Evaluate(l, s, index, p, now, observation).IsDeal?;
      Prefilter.RejectionHidesNoDeal(l, l.text.scan, s, index, p, now, observation);
    }
  }

  /** "RDIMM 16GB", shipping free, at 16 (c + 1) units of a currency, under a ceiling of c. */
  function CheapForeign(currency: string, c: int): Listing {
    Listing("s", "1", Text("rdimm 16gb", Prefilter.ONE_MODULE), 16.0 * (c as real + 1.0), currency,
            Some(0.0), BuyNow, None, None, None, Marker, true)
  }

  function PolicyOf(currency: string, rate: real, c: int): Policy {
    Policy(c as real, 0.0, 0.0, 8, 0.80, 12.0, map[currency := rate], 0, 0.0)
  }

  lemma CeilingFor(rate: real) returns (c: int)
    requires 0.0 <= rate < 1.0
    ensures c >= 2 && c as real * (1.0 - rate) >= 2.0
  {
    var q := 2.0 / (1.0 - rate);
    assert q * (1.0 - rate) == 2.0;
    Prefilter.QuotientAtLeast(2.0, 1.0 - rate, 2.0);
    c := q.Floor + 1;
    assert (c as real - q) * (1.0 - rate) >= 0.0;
  }

  lemma CheapForeignIsWhole(currency: string, c: int)
    ensures WholeCents(CheapForeign(currency, c).price)
  {
    Integral(CheapForeign(currency, c).price * 100.0, 1600 * (c + 1));
  }

  /** "RDIMM 16GB" never passes the gate, its price basis being unknown: its price decides. */
  lemma OneModuleIsUncertain(price: real, m: Matrix, minConfidence: real, ceiling: real)
    requires Accepts(m, 16)
    ensures Run(price, Prefilter.ONE_MODULE, m, minConfidence, Some(ceiling)).reject ==
      Some(if ToPerGbEven(price / 16.0) > ceiling then BestCaseAboveCeiling else LowConfidence)
  {
    Prefilter.OneModuleReading();
    hide Parse, Consistent, Prefilter.OptimisticTotal, ToPerGbEven;
    assert Prefilter.BestCase(price, Prefilter.ONE_MODULE) == Some(ToPerGbEven(price / 16.0));
  }

  lemma CheapForeignIsRejected(currency: string, c: int, m: Matrix, minConfidence: real)
    requires Accepts(m, 16) && c >= 2
    ensures Run(CheapForeign(currency, c).price, Prefilter.ONE_MODULE, m, minConfidence, Some(c as real)).reject == Some(BestCaseAboveCeiling)
  {
    var price := CheapForeign(currency, c).price;
    OneModuleIsUncertain(price, m, minConfidence, c as real);
    hide Run;
    assert price / 16.0 == c as real + 1.0;
    Integral(price / 16.0 * 10000.0, 10000 * (c + 1));
  }

  lemma UnitIsLow(rate: real, c: real, unit: real)
    requires 0.0 <= rate < 1.0 && c >= 2.0 && c * (1.0 - rate) >= 2.0 && unit == (c + 1.0) * rate
    ensures 0.0 <= unit <= c - 1.0
  {
    assert unit == c - c * (1.0 - rate) + rate;
  }

  lemma SixteenUnits(price: real, rate: real, c: real, unit: real)
    requires price == 16.0 * (c + 1.0) && unit == (c + 1.0) * rate
    ensures Converted(price, rate) == 16.0 * unit
  {
  }

  lemma LowCentsAreCheap(unit: real, eur: real, c: int)
    requires 0.0 <= unit <= c as real - 1.0 && 0.0 <= eur <= 16.0 * unit + 0.005
    ensures 0.0 <= EurPerGb(eur, 16) < c as real
  {
    Thresholds.PerGbIsClose(eur, 16);
    IntegerBound(eur / 16.0 * 10000.0, 0);
    assert eur / 16.0 <= unit + 0.001;
  }

  lemma ForeignCostIsLow(rate: real, c: int, price: real, eur: real)
    requires 0.0 <= rate < 1.0 && c >= 2 && c as real * (1.0 - rate) >= 2.0
    requires price == 16.0 * (c as real + 1.0) && eur == ToCents(Converted(price, rate))
    ensures 0.0 <= EurPerGb(eur, 16) < c as real
  {
    var unit := (c as real + 1.0) * rate;
    UnitIsLow(rate, c as real, unit);
    SixteenUnits(price, rate, c as real, unit);
    hide Converted;
    Prefilter.CentsAreClose(Converted(price, rate));
    IntegerBound(Converted(price, rate) * 100.0, 0);
    LowCentsAreCheap(unit, eur, c);
  }

  lemma CheapForeignIsADeal(currency: string, rate: real, c: int)
    requires currency != "EUR" && 0.0 <= rate < 1.0 && c >= 2 && c as real * (1.0 - rate) >= 2.0
    ensures Prefilter.HasDeal(CheapForeign(currency, c), 1, 16, [], PolicyOf(currency, rate, c), 0, true)
  {
    var l, p := CheapForeign(currency, c), PolicyOf(currency, rate, c);
    var eur := ToCents(Converted(l.price, rate));
    assert ToEur(l.price, currency, p.rates) == Some(eur);
    ForeignCostIsLow(rate, c, l.price, eur);
    ToCentsIsWhole(Converted(l.price, rate));
    CentsFixed(eur);
    assert Thresholds.ShippingUsed(l, p) == 0.0 by { Integral(0.0, 0); assert Converted(0.0, rate) == 0.0; }
    Prefilter.CostOfOne(l, eur, 16, p);
    assert Prefilter.IsCheap(l, eur, 1, 16, [], p, 0, true) by { hide EurPerGb, ToCents, ToEur, Prefilter.CostAt; }
    var s := Prefilter.CheapIsDeal(l, eur, 1, 16, [], p, 0, true);
  }

  lemma CheapForeignIsHidden(currency: string, rate: real, c: int, m: Matrix)
    requires currency != "EUR" && 0.0 <= rate < 1.0 && c >= 2 && c as real * (1.0 - rate) >= 2.0 && Accepts(m, 16)
    ensures HidesADeal(CheapForeign(currency, c), m, PolicyOf(currency, rate, c), [], 0, true)
  {
    hide Run, Parse, Consistent, WholeCents, Prefilter.OptimisticTotal, Prefilter.HasDeal;
    Prefilter.OneModuleReading();
    CheapForeignIsRejected(currency, c, m, 0.80);
    CheapForeignIsADeal(currency, rate, c);
    CheapForeignIsWhole(currency, c);
  }

  /** The rate decides: in a foreign currency the prefilter of the cascade can hide a deal if and only
      if a unit is worth less than a euro. */
  lemma ForeignDealIsHiddenExactly(currency: string, rate: real, m: Matrix)
    requires currency != "EUR" && rate >= 0.0 && Accepts(m, 16)
    ensures (exists l: Listing, p: Policy, index, now, observation ::
               l.currency == currency && currency in p.rates && p.rates[currency] == rate
               && HidesADeal(l, m, p, index, now, observation))
       <==> rate < 1.0
  {
    forall l: Listing, p: Policy, index, now, observation |
      l.currency == currency && currency in p.rates && p.rates[currency] == rate && HidesADeal(l, m, p, index, now, observation)
      ensures rate < 1.0
    {
      if rate >= 1.0 { WorthAEuroHidesNothing(l, m, p, index, now, observation); }
    }
    if rate < 1.0 {
      var c := CeilingFor(rate);
      CheapForeignIsHidden(currency, rate, c, m);
      assert HidesADeal(CheapForeign(currency, c), m, PolicyOf(currency, rate, c), [], 0, true);
    }
  }

  /** A listing the cascade rejects for its best case hides a deal, among the readings within the
      bound, if and only if a finite test succeeds: some total up to the bound with a limited number
      of displayed prices passes every barrier. For any currency with a rate, any sale type, any
      clock and either mode. */
  lemma RejectionHidesExactly(l: Listing, eur: real, m: Matrix, p: Policy, index: Index, now: int, observation: bool)
    requires Run(l.price, l.text.scan, m, p.minConfidence, Some(p.ceiling)).reject == Some(BestCaseAboveCeiling)
    requires l.text.scan.keyword != Some(BestCaseAboveCeiling)
    requires ToEur(l.price, l.currency, p.rates) == Some(eur) && Prefilter.IsMapping(index)
    requires eur >= 0.0 && Thresholds.ShippingUsed(l, p) >= 0.0
    ensures Prefilter.OptimisticTotal(l.text.scan).Some? && Prefilter.OptimisticTotal(l.text.scan).value > 0
    ensures var bound := Prefilter.OptimisticTotal(l.text.scan).value;
      Prefilter.HasDeal(l, 1, bound, index, p, now, observation) <==>
        exists units, total :: 1 <= total <= bound && 1 <= units <= Prefilter.MaxUnits(eur, total, p)
          && Prefilter.IsCheap(l, eur, units, total, index, p, now, observation)
  {
    OnlyThePrefilterSaysSo(l.price, l.text.scan, m, p.minConfidence, Some(p.ceiling));
    Prefilter.HasDealFinitely(l, eur, 1, Prefilter.OptimisticTotal(l.text.scan).value, index, p, now, observation);
  }

  /** Unless the bound makes the price implausibly low, the test is a single comparison: one price
      over the whole bound. */
  lemma RejectionHidesAtTheBound(l: Listing, eur: real, m: Matrix, p: Policy, index: Index, now: int, observation: bool)
    requires Run(l.price, l.text.scan, m, p.minConfidence, Some(p.ceiling)).reject == Some(BestCaseAboveCeiling)
    requires l.text.scan.keyword != Some(BestCaseAboveCeiling)
    requires ToEur(l.price, l.currency, p.rates) == Some(eur) && Prefilter.IsMapping(index)
    requires eur >= 0.0 && Thresholds.ShippingUsed(l, p) >= 0.0
    requires l.saleType == Auction ==> Thresholds.BidEur(l, p).value >= 0.0
    ensures Prefilter.OptimisticTotal(l.text.scan).Some? && Prefilter.OptimisticTotal(l.text.scan).value > 0
    ensures var bound := Prefilter.OptimisticTotal(l.text.scan).value;
      Prefilter.CostAt(l, eur, 1, bound, p) >= p.floor ==>
        (Prefilter.HasDeal(l, 1, bound, index, p, now, observation) <==>
           Prefilter.IsCheap(l, eur, 1, bound, index, p, now, observation))
  {
    OnlyThePrefilterSaysSo(l.price, l.text.scan, m, p.minConfidence, Some(p.ceiling));
    var bound := Prefilter.OptimisticTotal(l.text.scan).value;
    if Prefilter.CostAt(l, eur, 1, bound, p) >= p.floor {
      Prefilter.HasDealAtTheTop(l, eur, 1, bound, index, p, now, observation);
    }
  }

  /** And the grammar's own total is hidden, for some basis, if and only if a limited number of
      displayed prices over exactly that total passes every barrier. */
  lemma OwnTotalIsHiddenExactly(l: Listing, eur: real, p: Policy, index: Index, now: int, observation: bool)
    requires Parse(l.text.scan).total.Some?
    requires ToEur(l.price, l.currency, p.rates) == Some(eur) && Prefilter.IsMapping(index)
    requires eur >= 0.0 && Thresholds.ShippingUsed(l, p) >= 0.0
    ensures var total := Parse(l.text.scan).total.value;
      Prefilter.HasDeal(l, total, total, index, p, now, observation) <==>
        exists units :: 1 <= units <= Prefilter.MaxUnits(eur, total, p)
          && Prefilter.IsCheap(l, eur, units, total, index, p, now, observation)
  {
    var total := Parse(l.text.scan).total.value;
    Prefilter.HasDealFinitely(l, eur, total, total, index, p, now, observation);
  }

  lemma OneModuleIsADeal(l: Listing, s: Spec, p: Policy, now: int, observation: bool)
    requires s == Spec(Some(16), 1, Some(16), Rdimm, None, Lot, 0.85, Rules, None)
    requires l.price == 33.0 && l.currency == "USD" && l.shipping == Some(0.0) && l.saleType == BuyNow
    requires p.ceiling == 2.0 && p.floor == 0.5 && p.minTotal == 8 && p.rates == map["USD" := 0.92] && p.minDiscount == 0.25
    ensures Thresholds.Evaluate(l, s, [(16, 3.0)], p, now, observation).IsDeal?
  {
    assert Thresholds.LotPrice(l, s, p.rates) == Some(30.36);
    assert Thresholds.LotCost(l, s, p) == 30.36;
    assert Thresholds.RulePerGb(l, s, p) == 1.8975;
    Market.OwnBucketWins(16, [(16, 3.0)], 0);
    Thresholds.DealExactly(l, s, [(16, 3.0)], p, now, observation);
  }

  /** A dollar listing the cascade rejects although the grammar's reading of it, sold as one lot, is
      a deal in both modes: "RDIMM 16GB" at 33 USD, shipping free, at 0.92 EUR per USD, a ceiling of
      2 EUR per gigabyte and a reference of 3. */
  lemma DollarListingHidden(l: Listing, m: Matrix, p: Policy, now: int, observation: bool)
    requires l.text.scan == Prefilter.ONE_MODULE && Accepts(m, 16)
    requires l.price == 33.0 && l.currency == "USD" && l.shipping == Some(0.0) && l.saleType == BuyNow
    requires p.ceiling == 2.0 && p.floor == 0.5 && p.minTotal == 8 && p.rates == map["USD" := 0.92] && p.minDiscount == 0.25
    ensures Consistent(l.text.scan)
    ensures Run(l.price, l.text.scan, m, p.minConfidence, Some(p.ceiling)).reject == Some(BestCaseAboveCeiling)
    ensures Thresholds.Evaluate(l, Parse(l.text.scan).(basis := Lot), [(16, 3.0)], p, now, observation).IsDeal?
  {
    Prefilter.OneModuleReading();
    OneModuleIsUncertain(33.0, m, p.minConfidence, 2.0);
    assert 33.0 / 16.0 * 10000.0 == 20625.0;
    var s := Parse(l.text.scan).(basis := Lot);
    hide Parse, Consistent, Run, Prefilter.OptimisticTotal;
    OneModuleIsADeal(l, s, p, now, observation);
  }
}
