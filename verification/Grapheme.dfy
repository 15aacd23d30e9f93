/** Grapheme-cluster breaks: the packed-state machine against the rules of UAX #29, section 3.1.1. */
module Grapheme {

  const START: nat := 0
  const OTHER: nat := 1
  const CR: nat := 2
  const LF: nat := 3
  const CONTROL: nat := 4
  const EXTEND: nat := 5
  const L: nat := 6
  const V: nat := 7
  const T: nat := 8
  const LV: nat := 9
  const LVT: nat := 10
  const REGIONAL_INDICATOR: nat := 11
  const SPACINGMARK: nat := 12
  const PREPEND: nat := 13
  const ZWJ: nat := 14
  const EXTENDED_PICTOGRAPHIC: nat := 19
  const E_ZWG: nat := 20

  const ICB_NONE: nat := 0
  const ICB_LINKER: nat := 1
  const ICB_CONSONANT: nat := 2
  const ICB_EXTEND: nat := 3

  // ---------- the machine ----------

  predicate BreakSimple(lbc: nat, tbc: nat) {
    if lbc == START then true
    else if lbc == CR && tbc == LF then false
    else if CR <= lbc <= CONTROL then true
    else if CR <= tbc <= CONTROL then true
    else if lbc == L && (tbc == L || tbc == V || tbc == LV || tbc == LVT) then false
    else if (lbc == LV || lbc == V) && (tbc == V || tbc == T) then false
    else if (lbc == LVT || lbc == T) && tbc == T then false
    else if tbc == EXTEND || tbc == ZWJ || tbc == SPACINGMARK || lbc == PREPEND then false
    else if lbc == E_ZWG && tbc == EXTENDED_PICTOGRAPHIC then false
    else if lbc == REGIONAL_INDICATOR && tbc == REGIONAL_INDICATOR then false
    else true
  }

  /** The next conjunct state: which part of a consonant, linkers and extenders has been seen. */
  function NextConjunct(icb: nat, ticb: nat): nat {
    if ticb == ICB_CONSONANT || icb == ICB_CONSONANT || icb == ICB_EXTEND then ticb
    else if icb == ICB_LINKER then (if ticb == ICB_EXTEND then ICB_LINKER else ticb)
    else icb
  }

  /** The next boundclass state: pairs of regional indicators and emoji followed by extenders fold. */
  function NextClass(bc: nat, tbc: nat): nat {
    if bc == tbc && tbc == REGIONAL_INDICATOR then OTHER
    else if bc == EXTENDED_PICTOGRAPHIC then
      if tbc == EXTEND then EXTENDED_PICTOGRAPHIC else if tbc == ZWJ then E_ZWG else tbc
    else tbc
  }

  datatype Verdict = Verdict(breaks: bool, state: nat)

  /** `grapheme_break_extended` with a state: the answer and the state it stores back. */
  function BreakExtended(lbc: nat, tbc: nat, licb: nat, ticb: nat, state: nat): Verdict {
    var bc := if state == 0 then lbc else state % 0x100;
    var icb := if state == 0 then (if licb == ICB_CONSONANT then licb else ICB_NONE) else state / 0x100;
    Verdict(
      BreakSimple(bc, tbc) && !(icb == ICB_LINKER && ticb == ICB_CONSONANT),
      NextClass(bc, tbc) + 0x100 * NextConjunct(icb, ticb))
  }

  /** What the rules look at in a character. */
  datatype Char = Char(bc: nat, icb: nat)
  {
    /** Facts about the property data. */
    predicate Ok() {
      && OTHER <= bc <= EXTENDED_PICTOGRAPHIC && icb <= ICB_EXTEND
      && (icb == ICB_LINKER || icb == ICB_EXTEND ==> bc == EXTEND || bc == ZWJ)
      && (icb == ICB_CONSONANT ==> !(CR <= bc <= CONTROL))
    }
    predicate IsControl() { CR <= bc <= CONTROL }
    predicate InConjunct() { icb == ICB_LINKER || icb == ICB_EXTEND }
  }

  ghost predicate AllOk(cs: seq<Char>) {
    forall i :: 0 <= i < |cs| ==> cs[i].Ok()
  }

  // ---------- the rules, as conditions on the whole text before the boundary ----------

  /** A consonant, then only linkers and extenders. */
  ghost predicate ConsonantRun(p: seq<Char>) {
    exists k :: 0 <= k < |p| && p[k].icb == ICB_CONSONANT && forall j :: k < j < |p| ==> p[j].InConjunct()
  }

  /** GB9c: a consonant, then only linkers and extenders, at least one of them a linker. */
  ghost predicate ConjunctOpen(p: seq<Char>) {
    exists k, m :: 0 <= k < m < |p| && p[k].icb == ICB_CONSONANT && p[m].icb == ICB_LINKER
                   && forall j :: k < j < |p| ==> p[j].InConjunct()
  }

  /** An emoji, then only extenders. */
  ghost predicate EmojiRun(p: seq<Char>) {
    exists k :: 0 <= k < |p| && p[k].bc == EXTENDED_PICTOGRAPHIC && forall j :: k < j < |p| ==> p[j].bc == EXTEND
  }

  /** GB11: an emoji, then only extenders, then a zero width joiner. */
  ghost predicate EmojiJoined(p: seq<Char>) {
    p != [] && p[|p| - 1].bc == ZWJ && EmojiRun(p[..|p| - 1])
  }

  /** GB12/GB13: how many regional indicators end the text. */
  function Indicators(p: seq<Char>): nat {
    if p != [] && p[|p| - 1].bc == REGIONAL_INDICATOR then 1 + Indicators(p[..|p| - 1]) else 0
  }

  /** Whether the rules put a break between the text `p` and the character `t` that follows it. */
  ghost predicate RuleBreak(p: seq<Char>, t: Char) {
    if p == [] then true                                                                            // GB1
    else
      var l := p[|p| - 1];
      if l.bc == CR && t.bc == LF then false                                                        // GB3
      else if l.IsControl() || t.IsControl() then true                                              // GB4, GB5
      else if l.bc == L && t.bc in {L, V, LV, LVT} then false                                       // GB6
      else if l.bc in {LV, V} && t.bc in {V, T} then false                                          // GB7
      else if l.bc in {LVT, T} && t.bc == T then false                                              // GB8
      else if t.bc in {EXTEND, ZWJ} then false                                                      // GB9
      else if t.bc == SPACINGMARK then false                                                        // GB9a
      else if l.bc == PREPEND then false                                                            // GB9b
      else if ConjunctOpen(p) && t.icb == ICB_CONSONANT then false                                  // GB9c
      else if EmojiJoined(p) && t.bc == EXTENDED_PICTOGRAPHIC then false                            // GB11
      else if Indicators(p) % 2 == 1 && t.bc == REGIONAL_INDICATOR then false                       // GB12, GB13
      else true                                                                                     // GB999
  }

  // ---------- how the whole-text conditions grow by one character ----------

  lemma ConsonantRunSnoc(p: seq<Char>, c: Char)
    ensures ConsonantRun(p + [c]) <==> c.icb == ICB_CONSONANT || (c.InConjunct() && ConsonantRun(p))
  {
    var q := p + [c];
    if c.icb == ICB_CONSONANT {
      assert q[|p|].icb == ICB_CONSONANT;
    }
    if c.InConjunct() && ConsonantRun(p) {
      var k :| 0 <= k < |p| && p[k].icb == ICB_CONSONANT && forall j :: k < j < |p| ==> p[j].InConjunct();
      assert q[k].icb == ICB_CONSONANT && forall j :: k < j < |q| ==> q[j].InConjunct();
    }
    if ConsonantRun(q) && c.icb != ICB_CONSONANT {
      var k :| 0 <= k < |q| && q[k].icb == ICB_CONSONANT && forall j :: k < j < |q| ==> q[j].InConjunct();
      assert q[|p|].InConjunct();
      assert p[k].icb == ICB_CONSONANT && forall j :: k < j < |p| ==> q[j].InConjunct() && p[j] == q[j];
    }
  }

  lemma ConjunctOpenSnoc(p: seq<Char>, c: Char)
    ensures ConjunctOpen(p + [c]) <==>
      (c.icb == ICB_LINKER && ConsonantRun(p)) || (c.icb == ICB_EXTEND && ConjunctOpen(p))
  {
    var q := p + [c];
    if c.icb == ICB_LINKER && ConsonantRun(p) {
      var k :| 0 <= k < |p| && p[k].icb == ICB_CONSONANT && forall j :: k < j < |p| ==> p[j].InConjunct();
      assert q[k].icb == ICB_CONSONANT && q[|p|].icb == ICB_LINKER && forall j :: k < j < |q| ==> q[j].InConjunct();
    }
    if c.icb == ICB_EXTEND && ConjunctOpen(p) {
      var k, m :| 0 <= k < m < |p| && p[k].icb == ICB_CONSONANT && p[m].icb == ICB_LINKER
                  && forall j :: k < j < |p| ==> p[j].InConjunct();
      assert q[k].icb == ICB_CONSONANT && q[m].icb == ICB_LINKER && forall j :: k < j < |q| ==> q[j].InConjunct();
    }
    if ConjunctOpen(q) {
      var k, m :| 0 <= k < m < |q| && q[k].icb == ICB_CONSONANT && q[m].icb == ICB_LINKER
                  && forall j :: k < j < |q| ==> q[j].InConjunct();
      assert q[|p|].InConjunct();
      assert p[k].icb == ICB_CONSONANT && forall j :: k < j < |p| ==> q[j].InConjunct() && p[j] == q[j];
      assert m < |p| ==> p[m].icb == ICB_LINKER;
    }
  }

  lemma EmojiRunSnoc(p: seq<Char>, c: Char)
    ensures EmojiRun(p + [c]) <==> c.bc == EXTENDED_PICTOGRAPHIC || (c.bc == EXTEND && EmojiRun(p))
  {
    var q := p + [c];
    if c.bc == EXTENDED_PICTOGRAPHIC {
      assert q[|p|].bc == EXTENDED_PICTOGRAPHIC;
    }
    if c.bc == EXTEND && EmojiRun(p) {
      var k :| 0 <= k < |p| && p[k].bc == EXTENDED_PICTOGRAPHIC && forall j :: k < j < |p| ==> p[j].bc == EXTEND;
      assert q[k].bc == EXTENDED_PICTOGRAPHIC && forall j :: k < j < |q| ==> q[j].bc == EXTEND;
    }
    if EmojiRun(q) && c.bc != EXTENDED_PICTOGRAPHIC {
      var k :| 0 <= k < |q| && q[k].bc == EXTENDED_PICTOGRAPHIC && forall j :: k < j < |q| ==> q[j].bc == EXTEND;
      assert q[|p|].bc == EXTEND;
      assert p[k].bc == EXTENDED_PICTOGRAPHIC && forall j :: k < j < |p| ==> q[j].bc == EXTEND && p[j] == q[j];
    }
  }

  lemma IndicatorsSnoc(p: seq<Char>, c: Char)
    ensures Indicators(p + [c]) == if c.bc == REGIONAL_INDICATOR then 1 + Indicators(p) else 0
    ensures (p + [c])[..|p|] == p
  {
    assert (p + [c])[..|p|] == p;
  }

  // ---------- what the state stands for ----------

  /** The boundclass the machine holds after the text `p`. */
  ghost function ClassAfter(p: seq<Char>): nat
    requires p != []
  {
    var l := p[|p| - 1];
    if EmojiJoined(p) then E_ZWG
    else if EmojiRun(p) then EXTENDED_PICTOGRAPHIC
    else if l.bc == REGIONAL_INDICATOR && Indicators(p) % 2 == 0 then OTHER
    else l.bc
  }

  /** The conjunct state the machine holds after the text `p`. */
  ghost function ConjunctAfter(p: seq<Char>): nat
    requires p != []
  {
    if p[|p| - 1].icb == ICB_CONSONANT then ICB_CONSONANT
    else if ConjunctOpen(p) then ICB_LINKER
    else if ConsonantRun(p) then ICB_EXTEND
    else ICB_NONE
  }

  ghost function Expected(p: seq<Char>): nat
    requires p != []
  {
    ClassAfter(p) + 0x100 * ConjunctAfter(p)
  }

  lemma ClassStep(p: seq<Char>, c: Char)
    requires p != [] && AllOk(p) && c.Ok()
    ensures ClassAfter(p + [c]) == NextClass(ClassAfter(p), c.bc)
  {
    EmojiRunSnoc(p, c);
    IndicatorsSnoc(p, c);
    EmojiFacts(p);
  }

  /** An emoji run ends in an emoji or an extender. */
  lemma EmojiFacts(p: seq<Char>)
    requires p != []
    ensures EmojiRun(p) ==> p[|p| - 1].bc == EXTENDED_PICTOGRAPHIC || p[|p| - 1].bc == EXTEND
    ensures p[|p| - 1].bc == EXTENDED_PICTOGRAPHIC ==> EmojiRun(p)
    ensures p[|p| - 1].bc == REGIONAL_INDICATOR ==> Indicators(p) > 0
  {
    var q, c := p[..|p| - 1], p[|p| - 1];
    assert p == q + [c];
    EmojiRunSnoc(q, c);
  }

  lemma ConjunctStep(p: seq<Char>, c: Char)
    requires p != [] && AllOk(p) && c.Ok()
    ensures ConjunctAfter(p + [c]) == NextConjunct(ConjunctAfter(p), c.icb)
  {
    ConsonantRunSnoc(p, c);
    ConjunctOpenSnoc(p, c);
    ConjunctFacts(p);
  }

  lemma ConjunctFacts(p: seq<Char>)
    requires p != []
    ensures ConjunctOpen(p) ==> ConsonantRun(p) && p[|p| - 1].InConjunct()
    ensures ConsonantRun(p) ==> p[|p| - 1].InConjunct() || p[|p| - 1].icb == ICB_CONSONANT
    ensures p[|p| - 1].icb == ICB_CONSONANT ==> ConsonantRun(p)
  {
    var q, c := p[..|p| - 1], p[|p| - 1];
    assert p == q + [c];
    ConsonantRunSnoc(q, c);
    ConjunctOpenSnoc(q, c);
    if ConjunctOpen(p) {
      var k, m :| 0 <= k < m < |p| && p[k].icb == ICB_CONSONANT && p[m].icb == ICB_LINKER
                  && forall j :: k < j < |p| ==> p[j].InConjunct();
    }
  }

  lemma BreakStep(p: seq<Char>, c: Char)
    requires p != [] && AllOk(p) && c.Ok()
    ensures RuleBreak(p, c) <==>
      BreakSimple(ClassAfter(p), c.bc) && !(ConjunctAfter(p) == ICB_LINKER && c.icb == ICB_CONSONANT)
  {
    EmojiFacts(p);
    ConjunctFacts(p);
    assert p[|p| - 1].Ok();
  }

  // ---------- whole texts ----------

  /** A text has one state after it, however the call was set up: carried over or freshly started. */
  ghost predicate StandsFor(state: nat, p: seq<Char>)
    requires p != []
  {
    state == Expected(p) || (state == 0 && Expected(p) == Expected([p[|p| - 1]]))
  }

  lemma SingleText(c: Char)
    requires c.Ok()
    ensures ClassAfter([c]) == c.bc
    ensures ConjunctAfter([c]) == if c.icb == ICB_CONSONANT then ICB_CONSONANT else ICB_NONE
  {
    var e: seq<Char> := [];
    assert e + [c] == [c];
    EmojiRunSnoc(e, c);
    IndicatorsSnoc(e, c);
    ConsonantRunSnoc(e, c);
    ConjunctOpenSnoc(e, c);
  }

  lemma ExpectedPositive(p: seq<Char>)
    requires p != [] && AllOk(p)
    ensures ClassAfter(p) < 0x100 && ConjunctAfter(p) <= ICB_EXTEND && Expected(p) != 0
  {
    assert p[|p| - 1].Ok();
  }

  lemma Unpack(bc: nat, icb: nat)
    requires bc < 0x100
    ensures (bc + 0x100 * icb) % 0x100 == bc && (bc + 0x100 * icb) / 0x100 == icb
  {
  }

  /** With a state that is carried over, the previous character given with the call is not looked at. */
  lemma CarriedCall(p: seq<Char>, c: Char, lbc: nat, licb: nat)
    requires p != [] && AllOk(p) && c.Ok()
    ensures BreakExtended(lbc, c.bc, licb, c.icb, Expected(p)) == Verdict(RuleBreak(p, c), Expected(p + [c]))
  {
    ExpectedPositive(p);
    Unpack(ClassAfter(p), ConjunctAfter(p));
    BreakStep(p, c);
    ClassStep(p, c);
    ConjunctStep(p, c);
  }

  /** A call with state 0 behaves as one with the state of the previous character alone. */
  lemma FreshCall(l: Char, c: Char)
    requires l.Ok()
    ensures BreakExtended(l.bc, c.bc, l.icb, c.icb, 0) == BreakExtended(l.bc, c.bc, l.icb, c.icb, Expected([l]))
  {
    SingleText(l);
    Unpack(ClassAfter([l]), ConjunctAfter([l]));
  }

  /** One call answers as the rules do and leaves the state of the longer text. */
  lemma CallCorrect(p: seq<Char>, c: Char, state: nat)
    requires p != [] && AllOk(p) && c.Ok() && StandsFor(state, p)
    ensures var l := p[|p| - 1];
      BreakExtended(l.bc, c.bc, l.icb, c.icb, state) == Verdict(RuleBreak(p, c), Expected(p + [c]))
  {
    var l := p[|p| - 1];
    assert l.Ok();
    CarriedCall(p, c, l.bc, l.icb);
    FreshCall(l, c);
  }

  /** The first character of a text, with no previous character and state 0. */
  lemma FirstCall(c: Char)
    requires c.Ok()
    ensures BreakExtended(START, c.bc, ICB_NONE, c.icb, 0) == Verdict(true, Expected([c]))
  {
    SingleText(c);
  }

  /** After a break the text before it no longer matters. */
  lemma BreakForgets(p: seq<Char>, c: Char)
    requires p != [] && AllOk(p) && c.Ok() && RuleBreak(p, c)
    ensures Expected(p + [c]) == Expected([c])
  {
    BreakStep(p, c);
    ClassStep(p, c);
    ConjunctStep(p, c);
    SingleText(c);
    EmojiFacts(p);
    ConjunctFacts(p);
    assert p[|p| - 1].Ok();
  }

  /**
   The state after the calls for the boundaries up to the one before `cs[i]`, the caller setting it
   back to 0 wherever it likes among the boundaries at which a break was reported.
   */
  function StateAt(cs: seq<Char>, reset: int -> bool, i: nat): nat
    requires i < |cs|
    decreases i, 1
  {
    if i == 0 then 0
    else
      var v := CallAt(cs, reset, i);
      if v.breaks && reset(i) then 0 else v.state
  }

  /** The call for the boundary before `cs[i]`. */
  function CallAt(cs: seq<Char>, reset: int -> bool, i: nat): Verdict
    requires 0 < i < |cs|
    decreases i, 0
  {
    BreakExtended(cs[i - 1].bc, cs[i].bc, cs[i - 1].icb, cs[i].icb, StateAt(cs, reset, i - 1))
  }

  lemma {:induction false} StateCorrect(cs: seq<Char>, reset: int -> bool, i: nat)
    requires AllOk(cs) && i < |cs|
    ensures StandsFor(StateAt(cs, reset, i), cs[..i + 1])
    ensures i > 0 ==> CallAt(cs, reset, i).breaks == RuleBreak(cs[..i], cs[i])
  {
    if i == 0 {
      assert cs[..1] == [cs[0]];
    } else {
      StateCorrect(cs, reset, i - 1);
      var p, c := cs[..i], cs[i];
      assert cs[..i + 1] == p + [c];
      CallCorrect(p, c, StateAt(cs, reset, i - 1));
      if RuleBreak(p, c) {
        BreakForgets(p, c);
      }
    }
  }

  /**
   At every boundary of every text the machine breaks exactly where the rules do, no matter after
   which breaks its state was reset.
   */
  lemma MachineFollowsRules(cs: seq<Char>, reset: int -> bool, i: nat)
    requires AllOk(cs) && 0 < i < |cs|
    ensures CallAt(cs, reset, i).breaks <==> RuleBreak(cs[..i], cs[i])
  {
    StateCorrect(cs, reset, i);
  }

  lemma ResetsDoNotMatter(cs: seq<Char>, reset1: int -> bool, reset2: int -> bool, i: nat)
    requires AllOk(cs) && 0 < i < |cs|
    ensures CallAt(cs, reset1, i).breaks == CallAt(cs, reset2, i).breaks
  {
    MachineFollowsRules(cs, reset1, i);
    MachineFollowsRules(cs, reset2, i);
  }
}
