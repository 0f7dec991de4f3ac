/** Absorption when frames revert: a frame that ends abandons the internal calls it has open, for
    which no return is ever emitted. When does the counter still drop the absorbed call's own return? */
module RevertBrackets {
  import opened Basics
  import opened CallBrackets

  /** An open call, by the bracket that opened it. */
  datatype Call = Call(at: nat, kind: Kind)

  // ---- reference: open calls when frames may revert ----------------------------------------------------

  /** The open calls after a word, innermost last; `None` once a bracket closes what is not open. An
      internal return closes an internal call of the running frame; the end of a frame closes the frame
      and everything in it. */
  function Live(w: BracketWord): Option<seq<Call>> {
    if w == [] then Some([]) else LiveAfter(Live(w[..|w| - 1]), |w| - 1, w[|w| - 1])
  }

  function LiveAfter(s: Option<seq<Call>>, at: nat, b: Bracket): Option<seq<Call>> {
    if s.None? then None
    else if b.Open? then Some(s.value + [Call(at, b.kind)])
    else if b.kind.External? then Ended(s.value)
    else if s.value != [] && s.value[|s.value| - 1].kind.Internal? then Some(s.value[..|s.value| - 1])
    else None
  }

  /** The calls that remain when the innermost frame ends. */
  function Ended(s: seq<Call>): (r: Option<seq<Call>>)
    ensures r.Some? ==> |r.value| < |s| && r.value <= s
  {
    if s == [] then None
    else if s[|s| - 1].kind.External? then Some(s[..|s| - 1])
    else Ended(s[..|s| - 1])
  }

  function InternalCalls(s: seq<Call>): nat {
    if s == [] then 0 else InternalCalls(s[..|s| - 1]) + if s[|s| - 1].kind.Internal? then 1 else 0
  }

  /** Internal calls that were open in frames when those frames ended. */
  function Abandoned(w: BracketWord): nat {
    if w == [] then 0
    else
      var init, b := w[..|w| - 1], w[|w| - 1];
      Abandoned(init) + if b == Close(External) then Dropped(Live(init)) else 0
  }

  function Dropped(s: Option<seq<Call>>): nat {
    if s.None? || Ended(s.value).None? then 0 else TopInternals(s.value)
  }

  /** Internal calls above the innermost frame. */
  function TopInternals(s: seq<Call>): nat {
    if s == [] || s[|s| - 1].kind.External? then 0 else TopInternals(s[..|s| - 1]) + 1
  }

  lemma {:induction false} EndedInternals(s: seq<Call>)
    requires Ended(s).Some?
    ensures InternalCalls(s) == InternalCalls(Ended(s).value) + TopInternals(s)
  {
    if s[|s| - 1].kind.External? {
    } else {
      EndedInternals(s[..|s| - 1]);
    }
  }

  lemma {:induction false} EndedConcat(a: seq<Call>, b: seq<Call>)
    ensures Ended(a + b) == if Ended(b).Some? then Some(a + Ended(b).value) else Ended(a)
  {
    if b == [] {
      assert a + b == a;
    } else {
      assert (a + b)[..|a + b| - 1] == a + b[..|b| - 1];
      EndedConcat(a, b[..|b| - 1]);
    }
  }

  lemma {:induction false} InternalCallsConcat(a: seq<Call>, b: seq<Call>)
    ensures InternalCalls(a + b) == InternalCalls(a) + InternalCalls(b)
  {
    if b == [] {
      assert a + b == a;
    } else {
      assert (a + b)[..|a + b| - 1] == a + b[..|b| - 1];
      InternalCallsConcat(a, b[..|b| - 1]);
    }
  }

  lemma {:induction false} LiveSnoc(w: BracketWord, b: Bracket)
    ensures Live(w + [b]) == LiveAfter(Live(w), |w|, b)
    ensures Abandoned(w + [b]) == Abandoned(w) + if b == Close(External) then Dropped(Live(w)) else 0
    ensures InternalHeight(w + [b]) == InternalHeight(w) + if b == Open(Internal) then 1
            else if b == Close(Internal) then -1 else 0
  {
    assert (w + [b])[..|w|] == w;
  }

  /** Every internal call that was not returned from is open or abandoned. */
  lemma {:induction false} HeightIsOpenAndAbandoned(w: BracketWord)
    requires Live(w).Some?
    ensures InternalHeight(w) == InternalCalls(Live(w).value) + Abandoned(w)
  {
    if w == [] {
    } else {
      var init, b := w[..|w| - 1], w[|w| - 1];
      assert w == init + [b];
      HeightIsOpenAndAbandoned(init);
      LiveSnoc(init, b);
      var s := Live(init).value;
      if b.Open? {
        assert (s + [Call(|init|, b.kind)])[..|s|] == s;
      } else if b.kind.External? {
        EndedInternals(s);
      }
    }
  }

  // ---- while the absorbed call is open ------------------------------------------------------------------

  predicate AllFrames(s: seq<Call>) {
    forall c :: c in s ==> c.kind.External?
  }

  lemma {:induction false} BeforeFirstInto(w: BracketWord)
    requires Live(w).Some? && FirstInto(w).None?
    ensures AllFrames(Live(w).value) && Counter(w) == START && Kept(w) == w
    ensures InternalHeight(w) == 0
  {
    if w == [] {
    } else {
      var init, b := w[..|w| - 1], w[|w| - 1];
      assert w == init + [b];
      FirstIntoSnoc(init, b);
      LiveSnoc(init, b);
      BeforeFirstInto(init);
      Snoc(init, b);
      FramesOnly(Live(init), |init|, b);
    }
  }

  lemma FramesOnly(s: Option<seq<Call>>, at: nat, b: Bracket)
    requires s.Some? && AllFrames(s.value) && b != Open(Internal) && LiveAfter(s, at, b).Some?
    ensures AllFrames(LiveAfter(s, at, b).value) && b.kind.External?
  {
    var after := LiveAfter(s, at, b).value;
    forall c | c in after ensures c.kind.External? {
      assert c in s.value || c.kind == b.kind;
    }
    assert s.value != [] ==> s.value[|s.value| - 1] in s.value;
  }

  /** The calls are listed in the order in which they were opened. */
  lemma {:induction false} LiveAscends(w: BracketWord)
    requires Live(w).Some?
    ensures forall i :: 0 <= i < |Live(w).value| ==> Live(w).value[i].at < |w|
    ensures forall i, j :: 0 <= i < j < |Live(w).value| ==> Live(w).value[i].at < Live(w).value[j].at
  {
    if w == [] {
    } else {
      LiveAscends(w[..|w| - 1]);
    }
  }

  /** The absorbed call is open: below it only frames, above it `inside`. */
  predicate OpenWith(w: BracketWord, below: seq<Call>, inside: seq<Call>) {
    FirstInto(w).Some? && AllFrames(below) && Live(w) == Some(below + [Call(FirstInto(w).value, Internal)] + inside)
  }

  predicate IsOpen(w: BracketWord) {
    Live(w).Some? && FirstInto(w).Some? && Call(FirstInto(w).value, Internal) in Live(w).value
  }

  /** What a bracket does to the calls around the absorbed one, unless it closes that call too. */
  lemma AroundAbsorbed(below: seq<Call>, first: Call, inside: seq<Call>, at: nat, b: Bracket)
    returns (inside': seq<Call>)
    requires AllFrames(below) && first.kind.Internal?
    requires var s' := LiveAfter(Some(below + [first] + inside), at, b); s'.Some? && first in s'.value
    ensures LiveAfter(Some(below + [first] + inside), at, b) == Some(below + [first] + inside')
  {
    var s := below + [first] + inside;
    inside' := if b.Open? then inside + [Call(at, b.kind)]
               else if b.kind.External? then (if Ended(inside).Some? then Ended(inside).value else [])
               else if inside == [] then [] else inside[..|inside| - 1];
    assert b.Open? ==> s + [Call(at, b.kind)] == below + [first] + inside';
    EndedAround(below, first, inside);
    assert s[..|s| - 1] == if inside == [] then below else below + [first] + inside[..|inside| - 1];
  }

  lemma {:induction false} EndedAround(below: seq<Call>, first: Call, inside: seq<Call>)
    requires AllFrames(below) && first.kind.Internal?
    ensures var r := Ended(below + [first] + inside);
            if Ended(inside).Some? then r == Some(below + [first] + Ended(inside).value)
            else r.Some? ==> first !in r.value
  {
    EndedConcat(below + [first], inside);
    EndedConcat(below, [first]);
    assert [first][..0] == [];
    assert Ended(below).Some? ==> forall c :: c in Ended(below).value ==> c in below;
  }

  /** While the absorbed call is open, the counter is the number of internal calls not returned from,
      abandoned ones included, and exactly the absorbed call is missing from the stream. */
  lemma {:induction false} WhileOpen(w: BracketWord) returns (below: seq<Call>, inside: seq<Call>)
    requires IsOpen(w)
    ensures OpenWith(w, below, inside)
    ensures Counter(w) == Absorber(true, InternalHeight(w)) && InternalHeight(w) >= 1
    ensures Kept(w) == Without(w, FirstInto(w).value)
    decreases |w|
  {
    var init, b := w[..|w| - 1], w[|w| - 1];
    assert w == init + [b];
    FirstIntoSnoc(init, b);
    LiveSnoc(init, b);
    if FirstInto(init).None? {
      BeforeFirstInto(init);
      Snoc(init, b);
      below, inside := Live(init).value, [];
      assert below + [Call(|init|, Internal)] + inside == below + [Call(|init|, Internal)];
      assert Without(w, |init|) == init;
    } else {
      var p := FirstInto(init).value;
      assert Call(p, Internal) in Live(init).value;
      below, inside := WhileOpen(init);
      inside := AroundAbsorbed(below, Call(p, Internal), inside, |init|, b);
      StillCounted(init, b, below, Call(p, Internal), inside);
      WithoutSnoc(init, b, p);
    }
  }

  lemma {:induction false} StillCounted(w: BracketWord, b: Bracket, below: seq<Call>, first: Call, inside: seq<Call>)
    requires Counter(w) == Absorber(true, InternalHeight(w)) && InternalHeight(w) >= 1
    requires Live(w + [b]) == Some(below + [first] + inside) && first.kind.Internal?
    ensures Counter(w + [b]) == Absorber(true, InternalHeight(w + [b])) && InternalHeight(w + [b]) >= 1
    ensures Kept(w + [b]) == Kept(w) + [b]
  {
    Snoc(w, b);
    LiveSnoc(w, b);
    HeightIsOpenAndAbandoned(w + [b]);
    InternalCallsConcat(below + [first], inside);
    assert (below + [first])[..|below|] == below;
  }

  // ---- the absorbed call's own return --------------------------------------------------------------------

  /** The absorbed call is the innermost open one, so the next internal return is its own. */
  predicate Innermost(w: BracketWord) {
    && Live(w).Some? && FirstInto(w).Some? && Live(w).value != []
    && Live(w).value[|Live(w).value| - 1] == Call(FirstInto(w).value, Internal)
  }

  /** The absorbed call's own return is left out of the stream exactly when internal calls and returns
      before it balance up to that call: exactly when no frame inside it ended with an internal call open.
      Otherwise the return is emitted, and the counter stays positive by the number of abandoned calls. */
  lemma {:induction false} OwnReturnLeftOutIff(w: BracketWord)
    requires Innermost(w)
    ensures var p, w' := FirstInto(w).value, w + [Close(Internal)];
            && (Kept(w') == WithoutPair(w', p, |w|) <==> InternalHeight(w) == 1)
            && (InternalHeight(w) == 1 <==> Abandoned(w) == 0)
            && (InternalHeight(w) != 1 ==> Kept(w') == Without(w', p) && Counter(w').nesting == Abandoned(w) > 0)
            && (InternalHeight(w) == 1 ==> Counter(w') == Absorber(true, 0))
  {
    var p, w' := FirstInto(w).value, w + [Close(Internal)];
    var below, inside := WhileOpen(w);
    OnlyAbsorbedOpen(w, below, inside);
    HeightIsOpenAndAbandoned(w);
    Snoc(w, Close(Internal));
    PairOrCall(w, p);
  }

  lemma PairOrCall(w: BracketWord, p: nat)
    requires p < |w|
    ensures var w' := w + [Close(Internal)];
            && WithoutPair(w', p, |w|) == Without(w, p) != Without(w', p)
            && Without(w', p) == Without(w, p) + [Close(Internal)]
  {
    var w' := w + [Close(Internal)];
    WithoutSnoc(w, Close(Internal), p);
    LastOfPair(w, Close(Internal), p);
    assert |Without(w', p)| == |Without(w, p)| + 1;
  }

  lemma {:induction false} OnlyAbsorbedOpen(w: BracketWord, below: seq<Call>, inside: seq<Call>)
    requires Innermost(w) && OpenWith(w, below, inside)
    ensures InternalCalls(Live(w).value) == 1
  {
    LiveAscends(w);
    var s := Live(w).value;
    assert s[|below|] == s[|s| - 1];
    assert inside == [];
    NoInternals(below);
    InternalCallsConcat(below, [Call(FirstInto(w).value, Internal)]);
    assert s == below + [Call(FirstInto(w).value, Internal)];
    assert [Call(FirstInto(w).value, Internal)][..0] == [];
  }

  lemma {:induction false} NoInternals(s: seq<Call>)
    requires AllFrames(s)
    ensures InternalCalls(s) == 0
  {
    if s == [] {
    } else {
      assert s[|s| - 1] in s && forall c :: c in s[..|s| - 1] ==> c in s;
      NoInternals(s[..|s| - 1]);
    }
  }

  /** Once the absorbed call's return was left out, everything is emitted. */
  lemma {:induction false} KeptNext(w: BracketWord, b: Bracket)
    requires Counter(w) == Absorber(true, 0)
    ensures Kept(w + [b]) == Kept(w) + [b] && Counter(w + [b]) == Absorber(true, 0)
  {
    Snoc(w, b);
  }

  // ---- every word with reverts -------------------------------------------------------------------------------

  /** The position of the absorbed call's own return. */
  function OwnReturn(w: BracketWord): (q: Option<nat>)
    ensures q.Some? ==> q.value < |w|
  {
    if w == [] then None
    else
      var init := w[..|w| - 1];
      if OwnReturn(init).Some? then OwnReturn(init)
      else if Innermost(init) && w[|w| - 1] == Close(Internal) then Some(|init|) else None
  }

  /** The absorbed call returned, and no frame inside it had ended with an internal call open. */
  predicate ReturnedCleanly(w: BracketWord) {
    OwnReturn(w).Some? && Abandoned(w[..OwnReturn(w).value]) == 0
  }

  lemma {:induction false} OwnReturnSnoc(w: BracketWord, b: Bracket)
    ensures OwnReturn(w + [b]) == if OwnReturn(w).Some? then OwnReturn(w)
            else if Innermost(w) && b == Close(Internal) then Some(|w|) else None
    ensures ReturnedCleanly(w + [b])
            <==> ReturnedCleanly(w) || (OwnReturn(w).None? && Innermost(w) && b == Close(Internal) && Abandoned(w) == 0)
  {
    assert (w + [b])[..|w|] == w;
    if OwnReturn(w).Some? {
      assert (w + [b])[..OwnReturn(w).value] == w[..OwnReturn(w).value];
    }
  }

  lemma {:induction false} TwoInternals(s: seq<Call>, first: Call)
    requires first in s && first.kind.Internal? && s[|s| - 1].kind.Internal? && s[|s| - 1] != first
    ensures InternalCalls(s) >= 2
  {
    HasInternal(s[..|s| - 1], first);
  }

  lemma {:induction false} HasInternal(s: seq<Call>, c: Call)
    requires c in s && c.kind.Internal?
    ensures InternalCalls(s) >= 1
  {
    if s[|s| - 1] == c {
    } else {
      HasInternal(s[..|s| - 1], c);
    }
  }

  /** What is known of a word whose absorbed call has not returned cleanly. */
  predicate OnlyCallMissing(w: BracketWord) {
    && FirstInto(w).Some?
    && Kept(w) == Without(w, FirstInto(w).value)
    && Counter(w) == Absorber(true, InternalHeight(w)) && InternalHeight(w) >= 1
    && (IsOpen(w) || Abandoned(w) > 0)
  }

  lemma {:induction false} StillMissing(w: BracketWord, b: Bracket)
    requires OnlyCallMissing(w) && Live(w + [b]).Some?
    requires !(Innermost(w) && b == Close(Internal) && Abandoned(w) == 0)
    ensures OnlyCallMissing(w + [b])
  {
    var p, w' := FirstInto(w).value, w + [b];
    FirstIntoSnoc(w, b);
    LiveSnoc(w, b);
    HeightIsOpenAndAbandoned(w);
    HeightIsOpenAndAbandoned(w');
    Snoc(w, b);
    WithoutSnoc(w, b, p);
    var s := Live(w).value;
    if b == Close(Internal) {
      if IsOpen(w) && !Innermost(w) {
        TwoInternals(s, Call(p, Internal));
      } else {
        HasInternal(s, s[|s| - 1]);
      }
    } else if b == Close(External) && IsOpen(w) {
      EndedDropsOrKeeps(s, Call(p, Internal));
    }
  }

  lemma {:induction false} EndedDropsOrKeeps(s: seq<Call>, c: Call)
    requires Ended(s).Some? && c in s && c.kind.Internal?
    ensures c in Ended(s).value || TopInternals(s) > 0
  {
    if s[|s| - 1].kind.External? {
    } else {
      assert TopInternals(s) > 0;
    }
  }

  /** Absorption, for every word in which internal returns stay inside their frame, reverting frames
      included: the stream is the word without the absorbed call and its own return when that call
      returned cleanly, and the word without just the call in every other case. */
  lemma {:induction false} AbsorptionWithReverts(w: BracketWord)
    requires Live(w).Some? && FirstInto(w).Some?
    ensures ReturnedCleanly(w) ==>
              && FirstInto(w).value < OwnReturn(w).value
              && Kept(w) == WithoutPair(w, FirstInto(w).value, OwnReturn(w).value)
              && Counter(w) == Absorber(true, 0)
    ensures !ReturnedCleanly(w) ==> OnlyCallMissing(w)
    decreases |w|
  {
    var init, b := w[..|w| - 1], w[|w| - 1];
    assert w == init + [b];
    FirstIntoSnoc(init, b);
    LiveSnoc(init, b);
    if FirstInto(init).None? {
      JustAbsorbed(init);
    } else {
      AbsorptionWithReverts(init);
      OwnReturnSnoc(init, b);
      if ReturnedCleanly(init) {
        StaysClean(init, b);
      } else if ReturnedCleanly(w) {
        OwnReturnLeftOutIff(init);
      } else {
        NotCleanNow(init, b);
        StillMissing(init, b);
      }
    }
  }

  /** The first internal call is left out. */
  lemma {:induction false} JustAbsorbed(w: BracketWord)
    requires Live(w).Some? && FirstInto(w).None?
    ensures !ReturnedCleanly(w + [Open(Internal)]) && OnlyCallMissing(w + [Open(Internal)])
  {
    var b, w' := Open(Internal), w + [Open(Internal)];
    BeforeFirstInto(w);
    NoOwnReturn(w);
    OwnReturnSnoc(w, b);
    FirstIntoSnoc(w, b);
    LiveSnoc(w, b);
    Snoc(w, b);
    assert Without(w', |w|) == w;
    assert Call(|w|, Internal) in Live(w').value;
    HeightIsOpenAndAbandoned(w');
  }

  /** Once the absorbed call has returned cleanly, every bracket is emitted. */
  lemma {:induction false} StaysClean(w: BracketWord, b: Bracket)
    requires Live(w).Some? && FirstInto(w).Some? && ReturnedCleanly(w) && Live(w + [b]).Some?
    requires FirstInto(w).value < OwnReturn(w).value && Counter(w) == Absorber(true, 0)
    requires Kept(w) == WithoutPair(w, FirstInto(w).value, OwnReturn(w).value)
    ensures var w' := w + [b];
            && FirstInto(w') == FirstInto(w) && OwnReturn(w') == OwnReturn(w) && Counter(w') == Absorber(true, 0)
            && Kept(w') == WithoutPair(w', FirstInto(w).value, OwnReturn(w).value)
  {
    FirstIntoSnoc(w, b);
    OwnReturnSnoc(w, b);
    KeptNext(w, b);
    PairSnoc(w, b, FirstInto(w).value, OwnReturn(w).value);
  }

  lemma {:induction false} NoOwnReturn(w: BracketWord)
    requires FirstInto(w).None?
    ensures OwnReturn(w).None?
  {
    if w == [] {
    } else {
      var init, b := w[..|w| - 1], w[|w| - 1];
      assert w == init + [b];
      FirstIntoSnoc(init, b);
      NoOwnReturn(init);
    }
  }

  /** A call returns once. */
  lemma {:induction false} ReturnedIsNotOpen(w: BracketWord)
    requires Live(w).Some? && OwnReturn(w).Some?
    ensures FirstInto(w).Some? && !IsOpen(w)
  {
    var init, b := w[..|w| - 1], w[|w| - 1];
    assert w == init + [b];
    FirstIntoSnoc(init, b);
    LiveSnoc(init, b);
    LiveAscends(init);
    if OwnReturn(init).Some? {
      ReturnedIsNotOpen(init);
    }
  }

  lemma {:induction false} NotCleanNow(w: BracketWord, b: Bracket)
    requires Live(w).Some? && FirstInto(w).Some? && !ReturnedCleanly(w + [b])
    ensures !(Innermost(w) && b == Close(Internal) && Abandoned(w) == 0)
  {
    OwnReturnSnoc(w, b);
    if OwnReturn(w).Some? {
      ReturnedIsNotOpen(w);
    }
  }

  lemma AllLive()
    ensures Live([Open(Internal)]) == Some([Call(0, Internal)])
    ensures Live([Open(Internal), Open(External)]) == Some([Call(0, Internal), Call(1, External)])
    ensures var w := [Open(Internal), Open(External), Open(Internal)];
            Live(w) == Some([Call(0, Internal), Call(1, External), Call(2, Internal)]) && Abandoned(w) == 0
  {
    var w1, w2: BracketWord := [Open(Internal)], [Open(Internal), Open(External)];
    var w3 := [Open(Internal), Open(External), Open(Internal)];
    var a, b, c := Call(0, Internal), Call(1, External), Call(2, Internal);
    assert Live(w1) == Some([a]) && Abandoned(w1) == 0 by {
      LiveSnoc([], Open(Internal));
      assert [] + [Open(Internal)] == w1 && [] + [a] == [a];
    }
    assert Live(w2) == Some([a, b]) && Abandoned(w2) == 0 by {
      LiveSnoc(w1, Open(External));
      assert w1 + [Open(External)] == w2 && [a] + [b] == [a, b];
    }
    assert Live(w3) == Some([a, b, c]) && Abandoned(w3) == 0 by {
      LiveSnoc(w2, Open(Internal));
      assert w2 + [Open(Internal)] == w3 && [a, b] + [c] == [a, b, c];
    }
  }

  lemma RevertedLive()
    ensures var w := [Open(Internal), Open(External), Open(Internal), Close(External)];
            Live(w) == Some([Call(0, Internal)]) && Abandoned(w) == 1
  {
    var w3 := [Open(Internal), Open(External), Open(Internal)];
    AllLive();
    LiveSnoc(w3, Close(External));
    assert w3 + [Close(External)] == [Open(Internal), Open(External), Open(Internal), Close(External)];
    OneAbandoned(Call(0, Internal), Call(1, External), Call(2, Internal));
  }

  lemma OneAbandoned(a: Call, b: Call, c: Call)
    requires b.kind.External? && c.kind.Internal?
    ensures Ended([a, b, c]) == Some([a]) && TopInternals([a, b, c]) == 1
  {
    assert [a, b, c][..2] == [a, b] && [a, b][..1] == [a];
    assert Ended([a, b]) == Some([a]) && TopInternals([a, b]) == 0;
  }

  lemma {:induction false} FirstIntoIsFirst(w: BracketWord)
    requires w != [] && w[0] == Open(Internal)
    ensures FirstInto(w) == Some(0)
  {
    if |w| <= 1 {
    } else {
      FirstIntoIsFirst(w[..|w| - 1]);
    }
  }

  /** The smallest word in which the absorbed call's own return is not left out. */
  lemma RevertedOwnReturn()
    ensures var w := [Open(Internal), Open(External), Open(Internal), Close(External), Close(Internal)];
            FirstInto(w) == Some(0) && OwnReturn(w) == Some(4) && Abandoned(w[..4]) == 1 && !ReturnedCleanly(w)
  {
    var w1, w2: BracketWord := [Open(Internal)], [Open(Internal), Open(External)];
    var w3 := [Open(Internal), Open(External), Open(Internal)];
    var w4 := [Open(Internal), Open(External), Open(Internal), Close(External)];
    var w := [Open(Internal), Open(External), Open(Internal), Close(External), Close(Internal)];
    RevertedLive();
    FirstIntoIsFirst(w4);
    FirstIntoIsFirst(w);
    assert w1[..0] == [] && w2[..1] == w1 && w3[..2] == w2 && w4[..3] == w3 && w[..4] == w4;
    assert OwnReturn(w1) == None;
    assert OwnReturn(w2) == None;
    assert OwnReturn(w3) == None;
    assert OwnReturn(w4) == None;
    assert Innermost(w4);
  }

  // ---- <toplevel> ------------------------------------------------------------------------------------------

  lemma {:induction false} FramesAreExternalHeight(w: BracketWord)
    requires Live(w).Some?
    ensures ExternalHeight(w) == |Live(w).value| - InternalCalls(Live(w).value) >= 0
  {
    if w == [] {
    } else {
      var init, b := w[..|w| - 1], w[|w| - 1];
      FramesAreExternalHeight(init);
      var s := Live(init).value;
      if b.Open? {
        assert (s + [Call(|init|, b.kind)])[..|s|] == s;
      } else if b.kind.External? {
        EndedCount(s);
      }
      InternalsAtMost(Live(w).value);
    }
  }

  lemma {:induction false} EndedCount(s: seq<Call>)
    requires Ended(s).Some?
    ensures |Ended(s).value| - InternalCalls(Ended(s).value) == |s| - InternalCalls(s) - 1
  {
    if s[|s| - 1].kind.External? {
    } else {
      EndedCount(s[..|s| - 1]);
    }
  }

  lemma {:induction false} InternalsAtMost(s: seq<Call>)
    ensures InternalCalls(s) <= |s|
  {
    if s == [] {
    } else {
      InternalsAtMost(s[..|s| - 1]);
    }
  }

  lemma {:induction false} LivePrefix(w: BracketWord, r: nat)
    requires Live(w).Some? && r <= |w|
    ensures Live(w[..r]).Some?
    decreases |w|
  {
    if r == |w| {
      assert w[..r] == w;
    } else {
      LivePrefix(w[..|w| - 1], r);
      assert w[..|w| - 1][..r] == w[..r];
    }
  }

  /** Calls minus returns: one for every open call, and one for every call abandoned by a frame that ended. */
  lemma {:induction false} WordHeight(w: BracketWord)
    requires Live(w).Some?
    ensures Height(w) == |Live(w).value| + Abandoned(w)
  {
    forall r | 0 <= r <= |w| ensures InternalHeight(w[..r]) >= 0 {
      LivePrefix(w, r);
      HeightIsOpenAndAbandoned(w[..r]);
    }
    NestingIsInternalHeight(w);
    HeightIsOpenAndAbandoned(w);
    FramesAreExternalHeight(w);
  }

  /** The call depth that the stream leaves: the same, less the absorbed call while it counts as open. */
  lemma {:induction false} StreamHeight(w: BracketWord)
    requires Live(w).Some?
    ensures Height(Kept(w)) == |Live(w).value| + Abandoned(w) - if AbsorbedOpen(w) then 1 else 0
  {
    WordHeight(w);
    KeptHeight(w);
    NestingIff(w);
    if AbsorbedOpen(w) {
      assert w[..|w|] == w;
    }
  }

  /** Reverting frames never close `<toplevel>`: it is enough that internal returns stay inside their frame. */
  lemma {:induction false} RevertsKeepToplevelOpen(w: BracketWord)
    requires Live(w).Some?
    ensures KeepsToplevelOpen(Kept(w))
  {
    forall r | 0 <= r <= |w| ensures InternalHeight(w[..r]) >= 0 && ExternalHeight(w[..r]) >= 0 {
      LivePrefix(w, r);
      HeightIsOpenAndAbandoned(w[..r]);
      FramesAreExternalHeight(w[..r]);
    }
    CountsKeepToplevelOpen(w);
  }

  // ---- legal words are the case without reverts --------------------------------------------------------------

  function Kinds(s: seq<Call>): (r: seq<Kind>)
    ensures |r| == |s| && forall i :: 0 <= i < |s| ==> r[i] == s[i].kind
  {
    seq(|s|, i requires 0 <= i < |s| => s[i].kind)
  }

  /** A word whose brackets match is one in which nothing is abandoned, and the two readings agree. */
  lemma {:induction false} LegalIffNothingAbandoned(w: BracketWord)
    ensures Legal(w) <==> Live(w).Some? && Abandoned(w) == 0
    ensures Legal(w) ==> OpenCalls(w).value == Kinds(Live(w).value)
  {
    if w == [] {
    } else {
      var init, b := w[..|w| - 1], w[|w| - 1];
      LegalIffNothingAbandoned(init);
      if Legal(init) {
        var s := Live(init).value;
        if b == Close(External) && s != [] && s[|s| - 1].kind.Internal? {
          assert TopInternals(s) > 0;
        }
      }
    }
  }
}
