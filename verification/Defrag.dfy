/** Reassembly of fragmented UDP messages, one packet at a time. */
module Defrag {
  import opened Bytes
  import opened UdpCodec
  import Frag

  /** The defragger's fields; `count` is a byte and wraps. */
  datatype State = State(pktId: u16, slots: seq<Option<UdpMessage>>, count: byte, size: nat)

  const INITIAL := State(0, [], 0, 0)

  /** A well-numbered fragment of a split message. */
  predicate IsFragment(m: UdpMessage) {
    m.fragCount > 1 && m.fragId < m.fragCount
  }

  predicate OnPacket(d: State, m: UdpMessage) {
    m.packetId == d.pktId && m.fragCount == |d.slots|
  }

  /** The payloads present, in slot order. */
  function SlotData(slots: seq<Option<UdpMessage>>): seq<byte> {
    if slots == [] then []
    else (if slots[0].Some? then slots[0].value.data else []) + SlotData(slots[1..])
  }

  function Blank(n: nat): (slots: seq<Option<UdpMessage>>)
    ensures |slots| == n && forall i :: 0 <= i < n ==> slots[i] == None
  {
    seq(n, _ => None)
  }

  datatype Fed = Fed(state: State, out: Option<UdpMessage>)

  /** One call of `feed` as a transition. */
  function Step(d: State, m: UdpMessage): Fed {
    if m.fragCount <= 1 then Fed(d, Some(m))
    else if m.fragId >= m.fragCount then Fed(d, None)
    else if !OnPacket(d, m) then
      Fed(State(m.packetId, Blank(m.fragCount)[m.fragId := Some(m)], 1, |m.data|), None)
    else if d.slots[m.fragId].Some? then Fed(d, None)
    else
      var slots := d.slots[m.fragId := Some(m)];
      var next := State(d.pktId, slots, (d.count + 1) % 256, d.size + |m.data|);
      if next.count != |slots| then Fed(next, None)
      else Fed(next.(slots := slots[m.fragId := None]),
               Some(m.(fragId := 0, fragCount := 1, data := SlotData(slots))))
  }

  function After(d: State, h: seq<UdpMessage>): State {
    if h == [] then d else Step(After(d, h[..|h| - 1]), h[|h| - 1]).state
  }

  // ----- the history specification -----

  predicate SamePacket(a: UdpMessage, b: UdpMessage) {
    a.packetId == b.packetId && a.fragCount == b.fragCount
  }

  /** The latest maximal run of fragments of one packet; other messages are invisible to it. */
  function CurrentRun(h: seq<UdpMessage>): seq<UdpMessage> {
    if h == [] then []
    else
      var run, m := CurrentRun(h[..|h| - 1]), h[|h| - 1];
      if !IsFragment(m) then run
      else if run != [] && SamePacket(run[0], m) then run + [m]
      else [m]
  }

  /** The first fragment of the run with the given id. */
  function First(run: seq<UdpMessage>, id: nat): Option<UdpMessage> {
    if run == [] then None
    else if run[0].fragId == id then Some(run[0])
    else First(run[1..], id)
  }

  predicate Complete(run: seq<UdpMessage>) {
    run != [] && forall i: nat :: i < run[0].fragCount ==> First(run, i).Some?
  }

  /** The payloads of the first arrivals, by fragment id. */
  function Firsts(run: seq<UdpMessage>): (pieces: seq<seq<byte>>)
    requires Complete(run)
    ensures |pieces| == run[0].fragCount
    ensures forall i :: 0 <= i < |pieces| ==> pieces[i] == First(run, i).value.data
  {
    seq(run[0].fragCount, i requires 0 <= i < run[0].fragCount => First(run, i).value.data)
  }

  function Assembled(run: seq<UdpMessage>): seq<byte>
    requires Complete(run)
  {
    Frag.Concat(Firsts(run))
  }

  predicate Completes(run: seq<UdpMessage>) {
    Complete(run) && !Complete(run[..|run| - 1])
  }

  /** What feeding m after the history h must return. */
  function Expected(h: seq<UdpMessage>, m: UdpMessage): Option<UdpMessage> {
    if m.fragCount <= 1 then Some(m)
    else if IsFragment(m) && Completes(CurrentRun(h + [m])) then
      Some(m.(fragId := 0, fragCount := 1, data := Assembled(CurrentRun(h + [m]))))
    else None
  }

  // ----- the invariant -----

  function Filled(slots: seq<Option<UdpMessage>>): (n: nat)
    ensures n <= |slots|
  {
    if slots == [] then 0 else (if slots[0].Some? then 1 else 0) + Filled(slots[1..])
  }

  predicate Uniform(run: seq<UdpMessage>) {
    run != [] && forall i :: 0 <= i < |run| ==> IsFragment(run[i]) && SamePacket(run[0], run[i])
  }

  /** Collecting; done, with the completing slot taken; or done with that slot refilled by a replay. */
  predicate Tracks(d: State, run: seq<UdpMessage>) {
    && Uniform(run)
    && d.pktId == run[0].packetId
    && var n := run[0].fragCount;
    && |d.slots| == n
    && if !Complete(run) then
         && (forall i :: 0 <= i < n ==> d.slots[i] == First(run, i))
         && d.count == Filled(d.slots)
       else
         || (d.count == n && Filled(d.slots) == n - 1)
         || (d.count == (n + 1) % 256 && Filled(d.slots) == n)
  }

  lemma {:induction false} FilledUpdate(slots: seq<Option<UdpMessage>>, i: nat, o: Option<UdpMessage>)
    requires i < |slots|
    ensures Filled(slots[i := o]) ==
            Filled(slots) - (if slots[i].Some? then 1 else 0) + (if o.Some? then 1 else 0)
  {
    if i > 0 {
      FilledUpdate(slots[1..], i - 1, o);
      assert slots[i := o][1..] == slots[1..][i - 1 := o];
    } else {
      assert slots[i := o][1..] == slots[1..];
    }
  }

  lemma {:induction false} FilledFull(slots: seq<Option<UdpMessage>>)
    ensures Filled(slots) == |slots| <==> forall i :: 0 <= i < |slots| ==> slots[i].Some?
  {
    if slots != [] {
      FilledFull(slots[1..]);
      if Filled(slots) == |slots| {
        assert forall i :: 1 <= i < |slots| ==> slots[i] == slots[1..][i - 1];
      }
    }
  }

  lemma {:induction false} FilledBlank(n: nat)
    ensures Filled(Blank(n)) == 0
  {
    if n > 0 {
      FilledBlank(n - 1);
      assert Blank(n)[1..] == Blank(n - 1);
    }
  }

  lemma {:induction false} FirstAppend(run: seq<UdpMessage>, m: UdpMessage, id: nat)
    ensures First(run + [m], id) ==
            if First(run, id).Some? then First(run, id) else if m.fragId == id then Some(m) else None
  {
    if run == [] {
      assert run + [m] == [m];
      assert First([m][1..], id) == None;
    } else {
      FirstAppend(run[1..], m, id);
      assert (run + [m])[1..] == run[1..] + [m];
    }
  }

  lemma {:induction false} SlotDataIsConcat(slots: seq<Option<UdpMessage>>, pieces: seq<seq<byte>>)
    requires |slots| == |pieces|
    requires forall i :: 0 <= i < |slots| ==> slots[i].Some? && slots[i].value.data == pieces[i]
    ensures SlotData(slots) == Frag.Concat(pieces)
  {
    if slots != [] {
      SlotDataIsConcat(slots[1..], pieces[1..]);
    }
  }

  /** From any state not on its packet, a fragment starts a fresh run. */
  lemma {:induction false} StartsRun(d: State, m: UdpMessage)
    requires IsFragment(m) && !OnPacket(d, m)
    ensures Step(d, m).out == None
    ensures Tracks(Step(d, m).state, [m]) && !Complete([m])
  {
    var s := Step(d, m).state;
    FilledBlank(m.fragCount);
    FilledUpdate(Blank(m.fragCount), m.fragId, Some(m));
    forall i: nat | i < m.fragCount
      ensures First([m], i) == s.slots[i]
    {
      FirstAppend([], m, i);
      assert [] + [m] == [m];
    }
    FilledFull(s.slots);
  }

  /** The slots are the first arrivals. */
  predicate Holds(slots: seq<Option<UdpMessage>>, run: seq<UdpMessage>) {
    && run != [] && |slots| == run[0].fragCount
    && forall i :: 0 <= i < |slots| ==> slots[i] == First(run, i)
  }

  lemma {:induction false} HeldComplete(slots: seq<Option<UdpMessage>>, run: seq<UdpMessage>)
    requires Holds(slots, run)
    ensures Filled(slots) == |slots| <==> Complete(run)
    ensures Complete(run) ==> SlotData(slots) == Assembled(run)
  {
    FilledFull(slots);
    if Complete(run) {
      SlotDataIsConcat(slots, Firsts(run));
    }
  }

  lemma {:induction false} HoldsNext(slots: seq<Option<UdpMessage>>, run: seq<UdpMessage>, m: UdpMessage)
    requires Holds(slots, run) && SamePacket(run[0], m) && IsFragment(m)
    ensures Holds(if slots[m.fragId].Some? then slots else slots[m.fragId := Some(m)], run + [m])
  {
    assert (run + [m])[0] == run[0];
    forall i: nat | i < |slots|
      ensures First(run + [m], i) == if i == m.fragId && slots[i].None? then Some(m) else slots[i]
    {
      FirstAppend(run, m, i);
    }
  }

  /** While collecting, a fragment fills its slot or is a duplicate; the last one missing completes. */
  lemma {:induction false} Collects(d: State, run: seq<UdpMessage>, m: UdpMessage)
    requires Tracks(d, run) && IsFragment(m) && SamePacket(run[0], m) && !Complete(run)
    ensures Tracks(Step(d, m).state, run + [m])
    ensures Step(d, m).out ==
            if Complete(run + [m])
            then Some(m.(fragId := 0, fragCount := 1, data := Assembled(run + [m])))
            else None
  {
    assert Holds(d.slots, run);
    HeldComplete(d.slots, run);
    HoldsNext(d.slots, run, m);
    if d.slots[m.fragId].Some? {
      HeldComplete(d.slots, run + [m]);
    } else {
      var slots := d.slots[m.fragId := Some(m)];
      HeldComplete(slots, run + [m]);
      FilledUpdate(d.slots, m.fragId, Some(m));
      FilledUpdate(slots, m.fragId, None);
    }
  }

  /** After completion nothing of the same packet ever produces output again. */
  lemma {:induction false} StaysDone(d: State, run: seq<UdpMessage>, m: UdpMessage)
    requires Tracks(d, run) && IsFragment(m) && SamePacket(run[0], m) && Complete(run)
    ensures Tracks(Step(d, m).state, run + [m]) && Complete(run + [m])
    ensures Step(d, m).out == None
  {
    CompleteExtends(run, [m]);
    FilledFull(d.slots);
    FilledUpdate(d.slots, m.fragId, Some(m));
  }

  lemma {:induction false} CompleteExtends(run: seq<UdpMessage>, more: seq<UdpMessage>)
    requires Complete(run)
    ensures Complete(run + more)
    decreases |more|
  {
    if more == [] {
      assert run + more == run;
    } else {
      var m := more[0];
      forall i: nat | i < run[0].fragCount
        ensures First(run + [m], i).Some?
      {
        FirstAppend(run, m, i);
      }
      CompleteExtends(run + [m], more[1..]);
      assert run + [m] + more[1..] == run + more;
    }
  }

  /** One more fragment of the packet being tracked, in any phase. */
  lemma {:induction false} ContinuesRun(d: State, run: seq<UdpMessage>, m: UdpMessage)
    requires Tracks(d, run) && IsFragment(m) && SamePacket(run[0], m)
    ensures Tracks(Step(d, m).state, run + [m])
    ensures Step(d, m).out ==
            if Completes(run + [m])
            then Some(m.(fragId := 0, fragCount := 1, data := Assembled(run + [m])))
            else None
  {
    assert (run + [m])[..|run|] == run;
    if Complete(run) {
      StaysDone(d, run, m);
    } else {
      Collects(d, run, m);
    }
  }

  // ----- refinement of the history specification -----

  /** No fragment in the history belongs to the packet the defragger was on at its start. */
  predicate Unrelated(start: State, h: seq<UdpMessage>) {
    forall k :: 0 <= k < |h| && IsFragment(h[k]) ==> !OnPacket(start, h[k])
  }

  predicate Related(start: State, d: State, h: seq<UdpMessage>) {
    if CurrentRun(h) == [] then d == start else Tracks(d, CurrentRun(h))
  }

  lemma {:induction false} Invariant(start: State, h: seq<UdpMessage>)
    requires Unrelated(start, h)
    ensures Related(start, After(start, h), h)
    decreases |h|, 0
  {
    if h != [] {
      assert h[..|h| - 1] + [h[|h| - 1]] == h;
      RefinesFrom(start, h[..|h| - 1], h[|h| - 1]);
    }
  }

  /** From any state not on one of the packets to come, the defragger returns what the specification says. */
  lemma {:induction false} RefinesFrom(start: State, h: seq<UdpMessage>, m: UdpMessage)
    requires Unrelated(start, h + [m])
    ensures Step(After(start, h), m).out == Expected(h, m)
    ensures Related(start, After(start, h + [m]), h + [m])
    decreases |h|, 1
  {
    var now := h + [m];
    assert now[..|h|] == h && now[|h|] == m;
    assert forall k :: 0 <= k < |h| ==> now[k] == h[k];
    Invariant(start, h);
    var d, run := After(start, h), CurrentRun(h);
    if IsFragment(m) {
      if run != [] && SamePacket(run[0], m) {
        ContinuesRun(d, run, m);
      } else {
        StartsRun(d, m);
      }
    }
  }

  /** For every history and every next message, the defragger returns what the specification says. */
  lemma {:induction false} Refines(h: seq<UdpMessage>, m: UdpMessage)
    ensures Step(After(INITIAL, h), m).out == Expected(h, m)
  {
    RefinesFrom(INITIAL, h, m);
  }

  /** Feeding two histories in turn is feeding their concatenation. */
  lemma {:induction false} AfterConcat(d: State, a: seq<UdpMessage>, b: seq<UdpMessage>)
    ensures After(d, a + b) == After(After(d, a), b)
    decreases |b|
  {
    if b == [] {
      assert a + b == a;
    } else {
      AfterConcat(d, a, b[..|b| - 1]);
      assert (a + b)[..|a + b| - 1] == a + b[..|b| - 1];
    }
  }

  /** Messages that are not fragments never change the state. */
  lemma {:induction false} NonFragmentsAreInvisible(d: State, m: UdpMessage)
    requires !IsFragment(m)
    ensures Step(d, m) == Fed(d, if m.fragCount <= 1 then Some(m) else None)
  {
  }

  /** The reassembled message of the k-th feed, if that feed produced one. */
  predicate Emits(h: seq<UdpMessage>, k: nat) {
    k < |h| && IsFragment(h[k]) && Step(After(INITIAL, h[..k]), h[k]).out.Some?
  }

  lemma {:induction false} RunGrows(h: seq<UdpMessage>, i: nat, j: nat)
    requires i < j <= |h| && IsFragment(h[i])
    requires forall k :: i < k < j && IsFragment(h[k]) ==> SamePacket(h[i], h[k])
    ensures CurrentRun(h[..i + 1]) != [] && SamePacket(h[i], CurrentRun(h[..i + 1])[0])
    ensures CurrentRun(h[..i + 1]) <= CurrentRun(h[..j])
    decreases j
  {
    assert h[..i + 1][..i] == h[..i];
    if j > i + 1 {
      RunGrows(h, i, j - 1);
      assert h[..j][..j - 1] == h[..j - 1];
    } else if i > 0 {
      RunUniform(h[..i]);
    }
  }

  lemma {:induction false} RunUniform(h: seq<UdpMessage>)
    ensures CurrentRun(h) == [] || Uniform(CurrentRun(h))
  {
    if h != [] {
      RunUniform(h[..|h| - 1]);
    }
  }

  lemma {:induction false} SilentAfterEmission(h: seq<UdpMessage>, i: nat, j: nat)
    requires i < j < |h| && IsFragment(h[i]) && IsFragment(h[j])
    requires forall k :: i < k <= j && IsFragment(h[k]) ==> SamePacket(h[i], h[k])
    requires Complete(CurrentRun(h[..i + 1]))
    ensures !Completes(CurrentRun(h[..j + 1]))
  {
    RunGrows(h, i, j);
    var done, before := CurrentRun(h[..i + 1]), CurrentRun(h[..j]);
    assert before == done + before[|done|..];
    CompleteExtends(done, before[|done|..]);
    assert h[..j + 1][..j] == h[..j];
    assert CurrentRun(h[..j + 1]) == before + [h[j]];
    assert (before + [h[j]])[..|before|] == before;
  }

  lemma {:induction false} EmitsIffCompletes(h: seq<UdpMessage>, k: nat)
    ensures Emits(h, k) <==> k < |h| && IsFragment(h[k]) && Completes(CurrentRun(h[..k + 1]))
  {
    if k < |h| {
      Refines(h[..k], h[k]);
      assert h[..k] + [h[k]] == h[..k + 1];
    }
  }

  /** Between two reassembled outputs a fragment of another packet must have arrived. */
  lemma {:induction false} OncePerRun(h: seq<UdpMessage>, i: nat, j: nat)
    requires i < j && Emits(h, i) && Emits(h, j)
    ensures exists k :: i < k <= j && IsFragment(h[k]) && !SamePacket(h[i], h[k])
  {
    EmitsIffCompletes(h, i);
    EmitsIffCompletes(h, j);
    if forall k :: i < k <= j && IsFragment(h[k]) ==> SamePacket(h[i], h[k]) {
      SilentAfterEmission(h, i, j);
    }
  }

  /** The assembly loop: append every payload present, in slot order. */
  method Assemble(slots: seq<Option<UdpMessage>>) returns (data: seq<byte>)
    ensures data == SlotData(slots)
  {
    data := [];
    for i := 0 to |slots|
      invariant data + SlotData(slots[i..]) == SlotData(slots)
    {
      assert slots[i..][1..] == slots[i + 1..];
      if slots[i].Some? {
        ghost var rest := SlotData(slots[i + 1..]);
        assert data + (slots[i].value.data + rest) == data + slots[i].value.data + rest;
        data := data + slots[i].value.data;
      }
    }
  }

  /** The defragger. */
  class Defragger {
    var pktId: u16
    var slots: seq<Option<UdpMessage>>
    var count: byte
    var size: nat

    function View(): State
      reads this
    {
      State(pktId, slots, count, size)
    }

    constructor ()
      ensures View() == INITIAL
    {
      pktId, slots, count, size := 0, [], 0, 0;
    }

    /** `feed`. */
    method Feed(m: UdpMessage) returns (out: Option<UdpMessage>)
      modifies this
      ensures Fed(View(), out) == Step(old(View()), m)
    {
      if m.fragCount <= 1 {
        return Some(m);
      }
      if m.fragId >= m.fragCount {
        return None;
      }
      var id := m.fragId;
      if m.packetId != pktId || m.fragCount != |slots| {
        pktId := m.packetId;
        slots := Blank(m.fragCount);
        count := 1;
        size := |m.data|;
        slots := slots[id := Some(m)];
      } else if slots[id].None? {
        count := (count + 1) % 256;
        size := size + |m.data|;
        slots := slots[id := Some(m)];
        if count == |slots| {
          var data := Assemble(slots);
          var assembled := slots[id].value;
          slots := slots[id := None];
          return Some(assembled.(data := data, fragId := 0, fragCount := 1));
        }
      }
      return None;
    }
  }
}
