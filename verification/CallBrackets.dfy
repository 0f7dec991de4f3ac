/** Words of typed call brackets, and what removing the first internal pair does to them. */
module CallBrackets {
  import opened Basics

  datatype Kind = External | Internal

  datatype Bracket = Open(kind: Kind) | Close(kind: Kind)

  type BracketWord = seq<Bracket>

  // ---- reference: matching by a stack of open calls --------------------------------------------

  /** The open calls after a word, innermost last; `None` once a bracket closes the wrong kind or nothing. */
  function OpenCalls(w: BracketWord): Option<seq<Kind>> {
    if w == [] then Some([]) else OpenCallsAfter(OpenCalls(w[..|w| - 1]), w[|w| - 1])
  }

  function OpenCallsAfter(s: Option<seq<Kind>>, b: Bracket): Option<seq<Kind>> {
    if s.None? then None
    else if b.Open? then Some(s.value + [b.kind])
    else if s.value != [] && s.value[|s.value| - 1] == b.kind then Some(s.value[..|s.value| - 1])
    else None
  }

  predicate Legal(w: BracketWord) {
    OpenCalls(w).Some?
  }

  predicate WellBracketed(w: BracketWord) {
    OpenCalls(w) == Some([])
  }

  /** Number of open calls after the first `r` brackets of a legal word. */
  function DepthAt(w: BracketWord, r: nat): nat
    requires r <= |w|
  {
    var s := OpenCalls(w[..r]);
    if s.Some? then |s.value| else 0
  }

  /** Bracket `q` closes the call that bracket `p` opened. */
  predicate Matches(w: BracketWord, p: nat, q: nat) {
    && p < q < |w| && w[p].Open? && w[q].Close?
    && DepthAt(w, q) == DepthAt(w, p) + 1
    && forall r :: p < r <= q ==> DepthAt(w, p) < DepthAt(w, r)
  }

  /** The first internal call. */
  function FirstInto(w: BracketWord): (r: Option<nat>)
    ensures r.Some? ==>
            r.value < |w| && w[r.value] == Open(Internal)
            && forall i :: 0 <= i < r.value ==> w[i] != Open(Internal)
    ensures r.None? ==> Open(Internal) !in w
  {
    if w == [] then None
    else
      var init := w[..|w| - 1];
      assert forall b :: b in w <==> b in init || b == w[|w| - 1];
      var r := FirstInto(init);
      if r.Some? then r else if w[|w| - 1] == Open(Internal) then Some(|w| - 1) else None
  }

  /** The word without bracket `p`. */
  function Without(w: BracketWord, p: nat): BracketWord
    requires p < |w|
  {
    w[..p] + w[p + 1..]
  }

  /** The word without brackets `p` and `q`. */
  function WithoutPair(w: BracketWord, p: nat, q: nat): BracketWord
    requires p < q < |w|
  {
    w[..p] + w[p + 1..q] + w[q + 1..]
  }

  // ---- the recorder's counter --------------------------------------------------------------------

  /** `first_internal_call_absorbed` and `absorbed_call_nesting`. */
  datatype Absorber = Absorber(seen: bool, nesting: int)

  const START := Absorber(false, 0)

  /** The counter after one bracket, and whether the bracket is emitted. */
  function Absorb(a: Absorber, b: Bracket): (Absorber, bool) {
    if b == Open(Internal) then
      if !a.seen then (Absorber(true, 1), false)
      else (a.(nesting := if a.nesting > 0 then a.nesting + 1 else a.nesting), true)
    else if b == Close(Internal) && a.nesting > 0 then
      (a.(nesting := a.nesting - 1), a.nesting - 1 != 0)
    else (a, true)
  }

  function Counter(w: BracketWord): (a: Absorber)
    ensures a.nesting >= 0 && (!a.seen ==> a.nesting == 0)
  {
    if w == [] then START else Absorb(Counter(w[..|w| - 1]), w[|w| - 1]).0
  }

  /** The brackets that are emitted. */
  function Kept(w: BracketWord): BracketWord {
    if w == [] then []
    else
      var init, b := w[..|w| - 1], w[|w| - 1];
      if Absorb(Counter(init), b).1 then Kept(init) + [b] else Kept(init)
  }

  // ---- every word: heights -------------------------------------------------------------------------

  /** Calls minus returns. */
  function Height(w: BracketWord): int {
    if w == [] then 0 else Height(w[..|w| - 1]) + if w[|w| - 1].Open? then 1 else -1
  }

  /** Whatever the word, the emitted stream is one call lower exactly while the absorbed call is open. */
  lemma {:induction false} KeptHeight(w: BracketWord)
    ensures Height(Kept(w)) == Height(w) - if Counter(w).nesting > 0 then 1 else 0
  {
    if w == [] {
    } else {
      var init, b := w[..|w| - 1], w[|w| - 1];
      KeptHeight(init);
      if Absorb(Counter(init), b).1 {
        assert (Kept(init) + [b])[..|Kept(init)|] == Kept(init);
      }
    }
  }

  /** No prefix of the stream has more returns than calls, so `<toplevel>` stays open. */
  predicate KeepsToplevelOpen(w: BracketWord) {
    forall r :: 0 <= r <= |w| ==> Height(w[..r]) >= 0
  }

  /** Internal calls minus internal returns. */
  function InternalHeight(w: BracketWord): int {
    if w == [] then 0
    else InternalHeight(w[..|w| - 1]) + if w[|w| - 1] == Open(Internal) then 1
      else if w[|w| - 1] == Close(Internal) then -1 else 0
  }

  /** Since the first internal call, internal returns have always been fewer than internal calls. */
  predicate AbsorbedOpen(w: BracketWord) {
    FirstInto(w).Some?
      && forall r :: FirstInto(w).value < r <= |w| ==> InternalHeight(w[..FirstInto(w).value]) < InternalHeight(w[..r])
  }

  lemma {:induction false} FirstIntoSnoc(w: BracketWord, b: Bracket)
    ensures FirstInto(w + [b]) == if FirstInto(w).Some? then FirstInto(w)
            else if b == Open(Internal) then Some(|w|) else None
  {
    assert (w + [b])[..|w|] == w;
  }

  lemma {:induction false} AbsorbedOpenSnoc(w: BracketWord, b: Bracket)
    requires FirstInto(w).Some?
    ensures FirstInto(w + [b]) == FirstInto(w)
    ensures AbsorbedOpen(w + [b])
            <==> AbsorbedOpen(w) && InternalHeight(w[..FirstInto(w).value]) < InternalHeight(w + [b])
  {
    FirstIntoSnoc(w, b);
    var p, w' := FirstInto(w).value, w + [b];
    assert forall r :: 0 <= r <= |w| ==> w'[..r] == w[..r];
    assert w'[..|w'|] == w';
    if AbsorbedOpen(w') {
      forall r | p < r <= |w| ensures InternalHeight(w[..p]) < InternalHeight(w[..r]) {
        assert InternalHeight(w'[..p]) < InternalHeight(w'[..r]);
      }
      assert InternalHeight(w'[..p]) < InternalHeight(w'[..|w'|]);
    }
  }

  /** For every word: the counter is positive exactly while the word itself says that the absorbed
      call is open, and then it is the number of internal calls open since. */
  lemma {:induction false} NestingIff(w: BracketWord)
    ensures Counter(w).seen <==> FirstInto(w).Some?
    ensures Counter(w).nesting == if AbsorbedOpen(w) then InternalHeight(w) - InternalHeight(w[..FirstInto(w).value])
            else 0
  {
    if w == [] {
    } else {
      var init, b := w[..|w| - 1], w[|w| - 1];
      assert w == init + [b];
      NestingIff(init);
      if FirstInto(init).Some? {
        AbsorbedOpenSnoc(init, b);
        assert w[..FirstInto(init).value] == init[..FirstInto(init).value];
      } else {
        FirstIntoSnoc(init, b);
        assert w[..|w|] == w;
      }
    }
  }

  /** The heights that leave room for the absorbed call. */
  predicate LeavesRoom(w: BracketWord) {
    forall r :: 0 <= r <= |w| ==> RoomAfter(w[..r])
  }

  predicate RoomAfter(w: BracketWord) {
    Height(w) >= if AbsorbedOpen(w) then 1 else 0
  }

  lemma {:induction false} KeptRoom(w: BracketWord)
    ensures Height(Kept(w)) >= 0 <==> RoomAfter(w)
  {
    KeptHeight(w);
    NestingIff(w);
    if AbsorbedOpen(w) {
      assert w[..|w|] == w;
      assert InternalHeight(w[..FirstInto(w).value]) < InternalHeight(w[..|w|]);
    }
  }

  lemma {:induction false} KeptPrefixes(w: BracketWord, r: nat)
    requires r <= |w|
    ensures Kept(w[..r]) <= Kept(w)
    decreases |w|
  {
    if r == |w| {
      assert w[..r] == w;
    } else {
      KeptPrefixes(w[..|w| - 1], r);
      assert w[..|w| - 1][..r] == w[..r];
    }
  }

  lemma {:induction false} KeptPrefixSource(w: BracketWord, n: nat) returns (r: nat)
    requires n <= |Kept(w)|
    ensures r <= |w| && Kept(w[..r]) == Kept(w)[..n]
    decreases |w|
  {
    if n == |Kept(w)| {
      r := |w|;
      assert w[..r] == w && Kept(w)[..n] == Kept(w);
    } else {
      var init := w[..|w| - 1];
      r := KeptPrefixSource(init, n);
      assert init[..r] == w[..r] && Kept(init)[..n] == Kept(w)[..n];
    }
  }

  /** The emitted stream never closes `<toplevel>` exactly when the word leaves room for the absorbed call. */
  lemma {:induction false} ToplevelStaysOpenIff(w: BracketWord)
    ensures KeepsToplevelOpen(Kept(w)) <==> LeavesRoom(w)
  {
    if KeepsToplevelOpen(Kept(w)) {
      forall r | 0 <= r <= |w| ensures RoomAfter(w[..r]) {
        KeptPrefixes(w, r);
        KeptRoom(w[..r]);
        assert Kept(w)[..|Kept(w[..r])|] == Kept(w[..r]);
      }
    }
    if LeavesRoom(w) {
      forall n | 0 <= n <= |Kept(w)| ensures Height(Kept(w)[..n]) >= 0 {
        var r := KeptPrefixSource(w, n);
        KeptRoom(w[..r]);
        assert RoomAfter(w[..r]);
      }
    }
  }

  // ---- legal words: exactly one pair goes ------------------------------------------------------------

  function Internals(s: seq<Kind>): (n: nat)
    ensures n == 0 <==> Internal !in s
  {
    if s == [] then 0
    else
      assert forall k :: k in s <==> k in s[..|s| - 1] || k == s[|s| - 1];
      Internals(s[..|s| - 1]) + if s[|s| - 1] == Internal then 1 else 0
  }

  lemma {:induction false} PrefixLegal(w: BracketWord, r: nat)
    requires Legal(w) && r <= |w|
    ensures Legal(w[..r])
    decreases |w|
  {
    if r == |w| {
      assert w[..r] == w;
    } else {
      PrefixLegal(w[..|w| - 1], r);
      assert w[..|w| - 1][..r] == w[..r];
    }
  }

  /** Without an internal call nothing is dropped and no internal call is open. */
  lemma {:induction false} NoInto(w: BracketWord)
    requires Legal(w) && Open(Internal) !in w
    ensures Kept(w) == w && Counter(w) == START && Internal !in OpenCalls(w).value
  {
    if w == [] {
    } else {
      var init := w[..|w| - 1];
      NoInto(init);
      assert w == init + [w[|w| - 1]];
    }
  }

  /** While the absorbed call is open: the calls `below` it, itself, and the calls `inside` it, of which
      the counter counts the internal ones; the stream's open calls are the same without it. */
  ghost predicate StillOpen(w: BracketWord, p: nat, below: seq<Kind>, inside: seq<Kind>) {
    && p < |w| && OpenCalls(w[..p]) == Some(below)
    && OpenCalls(w) == Some(below + [Internal] + inside)
    && Counter(w) == Absorber(true, 1 + Internals(inside))
    && Kept(w) == Without(w, p)
    && OpenCalls(Kept(w)) == Some(below + inside)
    && DeeperAfter(w, p, |below|)
  }

  /** From bracket `p` on, more than `floor` calls are open. */
  predicate DeeperAfter(w: BracketWord, p: nat, floor: nat) {
    forall r :: p < r <= |w| ==> floor < DepthAt(w, r)
  }

  /** Once it has been closed by bracket `q`. */
  ghost predicate PairGone(w: BracketWord, p: nat, q: nat) {
    && p < q < |w| && Legal(w) && Counter(w) == Absorber(true, 0)
    && Matches(w, p, q)
    && Kept(w) == WithoutPair(w, p, q)
    && OpenCalls(Kept(w)) == OpenCalls(w)
  }

  /** Everything that is defined by the last bracket, for a word extended by one. */
  lemma {:induction false} Snoc(w: BracketWord, b: Bracket)
    ensures OpenCalls(w + [b]) == OpenCallsAfter(OpenCalls(w), b)
    ensures Counter(w + [b]) == Absorb(Counter(w), b).0
    ensures Kept(w + [b]) == if Absorb(Counter(w), b).1 then Kept(w) + [b] else Kept(w)
  {
    assert (w + [b])[..|w|] == w && (w + [b])[|w|] == b;
  }

  lemma PrefixOfSnoc(w: BracketWord, b: Bracket, r: nat)
    requires r <= |w|
    ensures (w + [b])[..r] == w[..r]
  {
  }

  lemma WithoutSnoc(w: BracketWord, b: Bracket, p: nat)
    requires p < |w|
    ensures Without(w + [b], p) == Without(w, p) + [b]
  {
  }

  lemma PairSnoc(w: BracketWord, b: Bracket, p: nat, q: nat)
    requires p < q < |w|
    ensures WithoutPair(w + [b], p, q) == WithoutPair(w, p, q) + [b]
  {
    assert (w + [b])[p + 1..q] == w[p + 1..q] && (w + [b])[q + 1..] == w[q + 1..] + [b];
  }

  // ---- every word: the dropped return ------------------------------------------------------------------

  /** The first bracket after the first internal call at which the internal calls are back at what they
      were before that call. */
  function BackAt(w: BracketWord): (q: Option<nat>)
    ensures q.Some? ==> FirstInto(w).Some? && FirstInto(w).value < q.value < |w|
  {
    if w == [] then None
    else
      var init := w[..|w| - 1];
      if BackAt(init).Some? then BackAt(init)
      else if FirstInto(init).Some? && InternalHeight(w) == InternalHeight(w[..FirstInto(init).value]) then Some(|init|)
      else None
  }

  lemma {:induction false} BackAtSnoc(w: BracketWord, b: Bracket)
    ensures var p := FirstInto(w);
            BackAt(w + [b]) == if BackAt(w).Some? then BackAt(w)
            else if p.Some? && InternalHeight(w + [b]) == InternalHeight(w[..p.value]) then Some(|w|) else None
  {
    assert (w + [b])[..|w|] == w;
    if FirstInto(w).Some? {
      PrefixOfSnoc(w, b, FirstInto(w).value);
    }
  }

  lemma {:induction false} InternalHeightSnoc(w: BracketWord, b: Bracket)
    ensures InternalHeight(w + [b])
            == InternalHeight(w) + if b == Open(Internal) then 1 else if b == Close(Internal) then -1 else 0
  {
    assert (w + [b])[..|w|] == w;
  }

  lemma {:induction false} BackIffClosed(w: BracketWord)
    requires FirstInto(w).Some?
    ensures AbsorbedOpen(w) <==> BackAt(w).None?
  {
    var init, b := w[..|w| - 1], w[|w| - 1];
    assert w == init + [b];
    BackAtSnoc(init, b);
    FirstIntoSnoc(init, b);
    if FirstInto(init).Some? {
      BackIffClosed(init);
      AbsorbedOpenSnoc(init, b);
      InternalHeightSnoc(init, b);
      assert AbsorbedOpen(init) ==> init[..|init|] == init;
    } else {
      FirstIntoOpens(init);
    }
  }

  lemma {:induction false} FirstIntoOpens(w: BracketWord)
    requires FirstInto(w).None?
    ensures var w' := w + [Open(Internal)];
            FirstInto(w') == Some(|w|) && AbsorbedOpen(w')
  {
    var w' := w + [Open(Internal)];
    FirstIntoSnoc(w, Open(Internal));
    InternalHeightSnoc(w, Open(Internal));
    assert w'[..|w|] == w && w'[..|w'|] == w';
  }

  /** That is the first one: until then there were more. */
  lemma {:induction false} BackIsFirst(w: BracketWord)
    requires BackAt(w).Some?
    ensures var p, q := FirstInto(w).value, BackAt(w).value;
            && InternalHeight(w[..q + 1]) == InternalHeight(w[..p])
            && forall r :: p < r <= q ==> InternalHeight(w[..p]) < InternalHeight(w[..r])
  {
    var init, b := w[..|w| - 1], w[|w| - 1];
    assert w == init + [b];
    FirstIntoSnoc(init, b);
    BackAtSnoc(init, b);
    assert forall r :: 0 <= r <= |init| ==> w[..r] == init[..r];
    if BackAt(init).Some? {
      BackIsFirst(init);
    } else {
      BackIffClosed(init);
      assert w[..|w|] == w;
    }
  }

  /** The stream of every word, reverting frames and mismatched returns included: the first internal call
      p is left out, and with it exactly the first bracket q at which the internal calls are back at
      their number before p. */
  lemma {:induction false} DroppedReturn(w: BracketWord)
    ensures FirstInto(w).None? ==> Kept(w) == w
    ensures FirstInto(w).Some? ==>
              var p := FirstInto(w).value;
              Kept(w) == if BackAt(w).Some? then WithoutPair(w, p, BackAt(w).value) else Without(w, p)
  {
    if w == [] {
    } else {
      var init, b := w[..|w| - 1], w[|w| - 1];
      assert w == init + [b];
      DroppedReturn(init);
      NestingIff(init);
      if FirstInto(init).Some? {
        BackIffClosed(init);
      }
      Snoc(init, b);
      FirstIntoSnoc(init, b);
      BackAtSnoc(init, b);
      InternalHeightSnoc(init, b);
      if FirstInto(init).None? {
        assert Without(init + [Open(Internal)], |init|) == init;
      } else if BackAt(init).Some? {
        PairSnoc(init, b, FirstInto(init).value, BackAt(init).value);
      } else {
        WithoutSnoc(init, b, FirstInto(init).value);
        LastOfPair(init, b, FirstInto(init).value);
      }
    }
  }

  lemma LastOfPair(w: BracketWord, b: Bracket, p: nat)
    requires p < |w|
    ensures WithoutPair(w + [b], p, |w|) == Without(w, p)
  {
  }

  /** Closing the innermost call. */
  lemma {:induction false} Popped(w: BracketWord, s: seq<Kind>, kind: Kind)
    requires OpenCalls(w) == Some(s + [kind])
    ensures OpenCalls(w + [Close(kind)]) == Some(s)
  {
    Snoc(w, Close(kind));
    assert (s + [kind])[..|s|] == s && (s + [kind])[|s|] == kind;
  }

  lemma {:induction false} Grouped(below: seq<Kind>, inside: seq<Kind>, kind: Kind)
    ensures below + [Internal] + (inside + [kind]) == (below + [Internal] + inside) + [kind]
    ensures below + (inside + [kind]) == (below + inside) + [kind]
    ensures Internals(inside + [kind]) == Internals(inside) + if kind == Internal then 1 else 0
  {
    assert (inside + [kind])[..|inside|] == inside;
  }

  lemma {:induction false} DeeperSnoc(w: BracketWord, b: Bracket, p: nat, floor: nat)
    requires DeeperAfter(w, p, floor)
    requires Legal(w + [b]) && floor < |OpenCalls(w + [b]).value|
    ensures DeeperAfter(w + [b], p, floor)
  {
    forall r | p < r <= |w| + 1 ensures floor < DepthAt(w + [b], r) {
      if r <= |w| {
        PrefixOfSnoc(w, b, r);
        assert floor < DepthAt(w, r);
      } else {
        assert (w + [b])[..r] == w + [b];
      }
    }
  }

  lemma {:induction false} BecomesOpen(w: BracketWord)
    requires Legal(w) && Open(Internal) !in w
    ensures StillOpen(w + [Open(Internal)], |w|, OpenCalls(w).value, [])
  {
    var w', below := w + [Open(Internal)], OpenCalls(w).value;
    NoInto(w);
    Snoc(w, Open(Internal));
    PrefixOfSnoc(w, Open(Internal), |w|);
    assert w[..|w|] == w;
    assert Without(w', |w|) == w;
    assert below + [Internal] + [] == below + [Internal] && below + [] == below;
    DeeperSnoc(w, Open(Internal), |w|, |below|);
  }

  lemma OpenStaysOpen(w: BracketWord, p: nat, below: seq<Kind>, inside: seq<Kind>, kind: Kind)
    requires StillOpen(w, p, below, inside)
    ensures StillOpen(w + [Open(kind)], p, below, inside + [kind])
  {
    Snoc(w, Open(kind));
    Snoc(Kept(w), Open(kind));
    WithoutSnoc(w, Open(kind), p);
    PrefixOfSnoc(w, Open(kind), p);
    Grouped(below, inside, kind);
    DeeperSnoc(w, Open(kind), p, |below|);
  }

  lemma CloseAbsorbed(n: nat, kind: Kind)
    ensures Absorb(Absorber(true, 1 + n + if kind == Internal then 1 else 0), Close(kind))
            == (Absorber(true, 1 + n), true)
  {
  }

  lemma {:induction false} CloseCounted(w: BracketWord, p: nat, less: seq<Kind>, kind: Kind)
    requires p < |w| && Counter(w) == Absorber(true, 1 + Internals(less + [kind])) && Kept(w) == Without(w, p)
    ensures Counter(w + [Close(kind)]) == Absorber(true, 1 + Internals(less))
    ensures Kept(w + [Close(kind)]) == Kept(w) + [Close(kind)] == Without(w + [Close(kind)], p)
  {
    assert Internals(less + [kind]) == Internals(less) + if kind == Internal then 1 else 0 by {
      Grouped([], less, kind);
    }
    CloseAbsorbed(Internals(less), kind);
    Snoc(w, Close(kind));
    WithoutSnoc(w, Close(kind), p);
  }

  lemma CloseStaysOpen(w: BracketWord, p: nat, below: seq<Kind>, inside: seq<Kind>, less: seq<Kind>, kind: Kind)
    requires StillOpen(w, p, below, inside) && inside == less + [kind]
    ensures StillOpen(w + [Close(kind)], p, below, less)
  {
    CloseCounted(w, p, less, kind);
    Grouped(below, less, kind);
    Popped(w, below + [Internal] + less, kind);
    Popped(Kept(w), below + less, kind);
    PrefixOfSnoc(w, Close(kind), p);
    DeeperSnoc(w, Close(kind), p, |below|);
  }

  lemma GetsClosed(w: BracketWord, p: nat, below: seq<Kind>)
    requires StillOpen(w, p, below, []) && w[p].Open?
    ensures PairGone(w + [Close(Internal)], p, |w|)
  {
    var w' := w + [Close(Internal)];
    Snoc(w, Close(Internal));
    PrefixOfSnoc(w, Close(Internal), p);
    PrefixOfSnoc(w, Close(Internal), |w|);
    assert below + [Internal] + [] == below + [Internal] && below + [] == below;
    Popped(w, below, Internal);
    assert w[..|w|] == w;
    assert WithoutPair(w', p, |w|) == Without(w, p) by {
      assert w'[p + 1..|w|] == w[p + 1..] && w'[|w| + 1..] == [];
    }
    forall r | p < r <= |w| ensures |below| < DepthAt(w', r) {
      PrefixOfSnoc(w, Close(Internal), r);
      assert |below| < DepthAt(w, r);
    }
  }

  /** A legal close inside the absorbed call closes the innermost call. */
  lemma CloseIsInnermost(w: BracketWord, p: nat, below: seq<Kind>, inside: seq<Kind>, kind: Kind)
    requires StillOpen(w, p, below, inside) && Legal(w + [Close(kind)])
    ensures if inside == [] then kind == Internal else inside[|inside| - 1] == kind
  {
    Snoc(w, Close(kind));
    var s := below + [Internal] + inside;
    assert s[|s| - 1] == if inside == [] then Internal else inside[|inside| - 1];
  }

  lemma StaysGone(w: BracketWord, p: nat, q: nat, b: Bracket)
    requires PairGone(w, p, q) && Legal(w + [b])
    ensures PairGone(w + [b], p, q)
  {
    Snoc(w, b);
    Snoc(Kept(w), b);
    PairSnoc(w, b, p, q);
    PrefixOfSnoc(w, b, p);
    forall r | p < r <= q ensures DepthAt(w + [b], p) < DepthAt(w + [b], r) && DepthAt(w + [b], r) == DepthAt(w, r) {
      PrefixOfSnoc(w, b, r);
      assert DepthAt(w, p) < DepthAt(w, r);
    }
  }

  /** Absorption, for every legal word: with p the first internal call, either p is still open and
      exactly p is missing from the stream, or exactly p and the return q that closes it are missing. */
  lemma {:induction false} AbsorbsOnePair(w: BracketWord) returns (q: Option<nat>, below: seq<Kind>, inside: seq<Kind>)
    requires Legal(w) && FirstInto(w).Some?
    ensures q.None? ==> StillOpen(w, FirstInto(w).value, below, inside)
    ensures q.Some? ==> PairGone(w, FirstInto(w).value, q.value)
    decreases |w|
  {
    var init, b := w[..|w| - 1], w[|w| - 1];
    assert w == init + [b];
    if FirstInto(init).None? {
      BecomesOpen(init);
      q, below, inside := None, OpenCalls(init).value, [];
    } else {
      var p := FirstInto(init).value;
      q, below, inside := AbsorbsOnePair(init);
      if q.Some? {
        StaysGone(init, p, q.value, b);
      } else if b.Open? {
        OpenStaysOpen(init, p, below, inside, b.kind);
        inside := inside + [b.kind];
      } else {
        CloseIsInnermost(init, p, below, inside, b.kind);
        if inside == [] {
          GetsClosed(init, p, below);
          q := Some(|init|);
        } else {
          CloseStaysOpen(init, p, below, inside, inside[..|inside| - 1], b.kind);
          inside := inside[..|inside| - 1];
        }
      }
    }
  }

  lemma {:induction false} LegalHeight(w: BracketWord)
    requires Legal(w)
    ensures Height(w) == |OpenCalls(w).value|
  {
    if w == [] {
    } else {
      LegalHeight(w[..|w| - 1]);
    }
  }

  lemma MatchReturnsToDepth(w: BracketWord, p: nat, q: nat)
    requires Legal(w) && Matches(w, p, q)
    ensures DepthAt(w, q + 1) == DepthAt(w, p)
  {
    PrefixLegal(w, q);
    PrefixLegal(w, q + 1);
    assert w[..q + 1] == w[..q] + [w[q]];
    Snoc(w[..q], w[q]);
  }

  /** An open call has no matching return. */
  lemma OpenIsUnmatched(w: BracketWord, p: nat, q: nat, below: seq<Kind>, inside: seq<Kind>)
    requires Legal(w) && StillOpen(w, p, below, inside)
    ensures !Matches(w, p, q)
  {
    if Matches(w, p, q) {
      MatchReturnsToDepth(w, p, q);
    }
  }

  /** The bracket theorem. For a legal word the emitted stream is legal, and no prefix of it closes
      `<toplevel>`. It is the word without its first internal call and the return that matches that
      call, or without the call alone while no return matches it; so it is well-bracketed when the word is. */
  lemma {:induction false} AbsorbedBracketTheorem(w: BracketWord)
    requires Legal(w)
    ensures Legal(Kept(w)) && KeepsToplevelOpen(Kept(w))
    ensures FirstInto(w).None? ==> Kept(w) == w
    ensures WellBracketed(w) ==> WellBracketed(Kept(w))
    ensures FirstInto(w).Some? ==>
              var p := FirstInto(w).value;
              || (exists q: nat :: Matches(w, p, q) && Kept(w) == WithoutPair(w, p, q))
              || ((forall q: nat :: !Matches(w, p, q)) && Kept(w) == Without(w, p) && !WellBracketed(w))
  {
    if FirstInto(w).None? {
      NoInto(w);
    } else {
      var q, below, inside := AbsorbsOnePair(w);
      if q.None? {
        forall q: nat ensures !Matches(w, FirstInto(w).value, q) {
          OpenIsUnmatched(w, FirstInto(w).value, q, below, inside);
        }
      }
    }
    forall n | 0 <= n <= |Kept(w)| ensures Height(Kept(w)[..n]) >= 0 {
      PrefixLegal(Kept(w), n);
      LegalHeight(Kept(w)[..n]);
    }
  }

  /** A frame that reverts with an internal call open breaks the pairing: the stream keeps the return
      of the absorbed call, which is then one return too many inside it. */
  lemma RevertUnbalancesAbsorption()
    ensures var w := [Open(Internal), Open(External), Open(Internal), Close(External), Close(Internal)];
            !Legal(w) && Kept(w) == [Open(External), Open(Internal), Close(External), Close(Internal)]
              && Counter(w).nesting == 1
  {
    var w1 := [Open(Internal)];
    var w2 := [Open(Internal), Open(External)];
    var w3 := [Open(Internal), Open(External), Open(Internal)];
    var w4 := [Open(Internal), Open(External), Open(Internal), Close(External)];
    var w5 := [Open(Internal), Open(External), Open(Internal), Close(External), Close(Internal)];
    assert w1[..0] == [] && w2[..1] == w1 && w3[..2] == w2 && w4[..3] == w3 && w5[..4] == w4;
    assert Counter(w1) == Absorber(true, 1) && Kept(w1) == [];
    assert Counter(w2) == Absorber(true, 1) && Kept(w2) == [Open(External)];
    assert Counter(w3) == Absorber(true, 2) && Kept(w3) == [Open(External), Open(Internal)];
    assert Counter(w4) == Absorber(true, 2) && Kept(w4) == [Open(External), Open(Internal), Close(External)];
    assert OpenCalls(w1) == Some([] + [Internal]);
    assert OpenCalls(w2) == Some([] + [Internal] + [External]);
    assert OpenCalls(w3) == Some([] + [Internal] + [External] + [Internal]);
    assert OpenCalls(w4) == None;
  }

  /** Returns never outnumber calls among the internal ones: enough to keep `<toplevel>` open even
      when frames revert with internal calls open. */
  predicate InternalsNonNegative(w: BracketWord) {
    forall r :: 0 <= r <= |w| ==> InternalHeight(w[..r]) >= 0
  }

  function ExternalHeight(w: BracketWord): int {
    if w == [] then 0
    else ExternalHeight(w[..|w| - 1]) + if w[|w| - 1] == Open(External) then 1
      else if w[|w| - 1] == Close(External) then -1 else 0
  }

  lemma {:induction false} NestingIsInternalHeight(w: BracketWord)
    requires InternalsNonNegative(w)
    ensures Counter(w).nesting <= InternalHeight(w)
    ensures !Counter(w).seen ==> InternalHeight(w) == 0
    ensures Height(w) == InternalHeight(w) + ExternalHeight(w)
  {
    if w == [] {
    } else {
      var init := w[..|w| - 1];
      assert forall r :: 0 <= r <= |init| ==> init[..r] == w[..r];
      NestingIsInternalHeight(init);
      assert w[..|w|] == w;
      assert w[|w| - 1] in {Open(Internal), Open(External), Close(Internal), Close(External)} by {
        assert w[|w| - 1].kind.Internal? || w[|w| - 1].kind.External?;
      }
    }
  }

  lemma {:induction false} CountsKeepToplevelOpen(w: BracketWord)
    requires InternalsNonNegative(w)
    requires forall r :: 0 <= r <= |w| ==> ExternalHeight(w[..r]) >= 0
    ensures KeepsToplevelOpen(Kept(w))
  {
    forall r | 0 <= r <= |w| ensures RoomAfter(w[..r]) {
      assert forall i :: 0 <= i <= r ==> w[..r][..i] == w[..i];
      NestingIff(w[..r]);
      NestingIsInternalHeight(w[..r]);
    }
    ToplevelStaysOpenIff(w);
  }
}
