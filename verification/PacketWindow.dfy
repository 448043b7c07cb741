/** The sliding packet-id window of the UDP relay: a ring of 64-bit words, cleared lazily. */
module PacketWindow {
  import opened Net

  const BLOCK_BITS := 64
  const RING_BLOCKS := 128
  const WINDOW_SIZE := (RING_BLOCKS - 1) * BLOCK_BITS

  const U64_MAX: u64 := 0xFFFF_FFFF_FFFF_FFFF

  // ----- One word of the ring

  /** A `u64` used as a bitmap, written out as its 64 bits, least significant first. */
  type Word = seq<bool>

  function Zero(): Word {
    seq(BLOCK_BITS, _ => false)
  }

  /** `word | (1 << bit)` */
  function OrBit(word: Word, bit: nat): Word
    requires bit < |word|
  {
    word[bit := true]
  }

  predicate IsRing(ring: seq<Word>) {
    && |ring| == RING_BLOCKS
    && forall i :: 0 <= i < RING_BLOCKS ==> |ring[i]| == BLOCK_BITS
  }

  // ----- The filter as a value

  datatype Window = Window(last: u64, ring: seq<Word>) {
    predicate Shaped() {
      IsRing(ring)
    }
  }

  function Block(id: u64): nat {
    id / BLOCK_BITS
  }

  function Slot(block: nat): nat {
    block % RING_BLOCKS
  }

  function BitOf(id: u64): (r: nat)
    ensures r < BLOCK_BITS
  {
    id % BLOCK_BITS
  }

  predicate Marked(ring: seq<Word>, id: u64)
    requires IsRing(ring)
  {
    ring[Slot(Block(id))][BitOf(id)]
  }

  function Fresh(): Window {
    Window(0, seq(RING_BLOCKS, _ => Zero()))
  }

  /** `reset` touches the first word of the ring only. */
  function ResetWindow(w: Window): Window
    requires w.Shaped()
  {
    Window(0, w.ring[0 := Zero()])
  }

  /** The words of the blocks `current + 1 ..= current + diff`, zeroed. */
  function Clear(ring: seq<Word>, current: nat, diff: nat): (r: seq<Word>)
    requires IsRing(ring)
    ensures IsRing(r)
  {
    if diff == 0 then ring else Clear(ring, current, diff - 1)[Slot(current + diff) := Zero()]
  }

  function ClearCount(last: u64, id: u64): nat
    requires last < id
  {
    var diff := Block(id) - Block(last);
    if diff > RING_BLOCKS then RING_BLOCKS else diff
  }

  function Advance(w: Window, id: u64): (r: Window)
    requires w.Shaped()
    ensures r.Shaped()
  {
    if id > w.last then
      Window(id, Clear(w.ring, Block(w.last), ClearCount(w.last, id)))
    else w
  }

  function Mark(ring: seq<Word>, id: u64): (r: seq<Word>)
    requires IsRing(ring)
    ensures IsRing(r)
  {
    ring[Slot(Block(id)) := OrBit(ring[Slot(Block(id))], BitOf(id))]
  }

  function Validate(w: Window, id: u64, limit: u64): (r: (Window, bool))
    requires w.Shaped()
    ensures r.0.Shaped()
  {
    if id >= limit then (w, false)
    else if id <= w.last && w.last - id > WINDOW_SIZE then (w, false)
    else
      var a := Advance(w, id);
      (Window(a.last, Mark(a.ring, id)), a.ring != Mark(a.ring, id))
  }

  // ----- The plain set the ring stands for

  ghost predicate IsLargest(s: set<u64>, m: u64) {
    && (forall q :: q in s ==> q <= m)
    && (m == 0 || m in s)
  }

  /** The documented meaning of the filter, over the ids accepted so far. */
  ghost predicate Admits(s: set<u64>, largest: u64, id: u64, limit: u64) {
    id < limit && largest - id <= WINDOW_SIZE && id !in s
  }

  predicate InSpan(last: u64, id: u64) {
    Block(last) - RING_BLOCKS < Block(id) <= Block(last)
  }

  /** Within the 128 blocks that end at the newest one the ring holds exactly `s`; any
      other content of the ring, in particular of blocks not yet reached, is arbitrary. */
  ghost predicate Represents(w: Window, s: set<u64>) {
    && w.Shaped()
    && IsLargest(s, w.last)
    && forall id: u64 :: InSpan(w.last, id) ==> (Marked(w.ring, id) <==> id in s)
  }

  // ----- Clearing

  lemma SlotsDiffer(a: nat, b: nat)
    requires a < b < a + RING_BLOCKS
    ensures Slot(a) != Slot(b)
  {
  }

  lemma {:induction false} ClearKeeps(ring: seq<Word>, current: nat, diff: nat, block: nat)
    requires IsRing(ring)
    requires block <= current && current + diff < block + RING_BLOCKS
    ensures Clear(ring, current, diff)[Slot(block)] == ring[Slot(block)]
  {
    if diff > 0 {
      ClearKeeps(ring, current, diff - 1, block);
      SlotsDiffer(block, current + diff);
    }
  }

  lemma {:induction false} ClearZeroes(ring: seq<Word>, current: nat, diff: nat, d: nat)
    requires IsRing(ring)
    requires 1 <= d <= diff
    ensures Clear(ring, current, diff)[Slot(current + d)] == Zero()
  {
    if d < diff {
      ClearZeroes(ring, current, diff - 1, d);
    }
  }

  /** Every block above the old newest one, up to the new newest one, reads zero. */
  lemma {:induction false} ClearReaches(ring: seq<Word>, last: u64, id: u64, block: nat)
    requires IsRing(ring)
    requires last < id && Block(last) < block <= Block(id)
    ensures Clear(ring, Block(last), ClearCount(last, id))[Slot(block)] == Zero()
  {
    var current := Block(last);
    var d := (block - current - 1) % RING_BLOCKS + 1;
    assert Slot(current + d) == Slot(block);
    ClearZeroes(ring, current, ClearCount(last, id), d);
  }

  lemma AdvanceRepresents(w: Window, s: set<u64>, id: u64)
    requires Represents(w, s) && w.last < id
    ensures var a := Advance(w, id);
            forall q: u64 :: InSpan(id, q) ==> (Marked(a.ring, q) <==> q in s)
  {
    var a := Advance(w, id);
    forall q: u64 | InSpan(id, q)
      ensures Marked(a.ring, q) <==> q in s
    {
      if Block(q) <= Block(w.last) {
        ClearKeeps(w.ring, Block(w.last), ClearCount(w.last, id), Block(q));
        assert InSpan(w.last, q);
      } else {
        ClearReaches(w.ring, w.last, id, Block(q));
        assert w.last < q;
      }
    }
  }

  // ----- Marking

  lemma MarkAddsOne(ring: seq<Word>, last: u64, id: u64, q: u64)
    requires IsRing(ring)
    requires InSpan(last, id) && InSpan(last, q)
    ensures Marked(Mark(ring, id), q) <==> Marked(ring, q) || q == id
  {
  }

  lemma UpdateChanges<T>(s: seq<T>, k: nat, x: T)
    requires k < |s|
    ensures s != s[k := x] <==> s[k] != x
  {
  }

  lemma MarkChanges(ring: seq<Word>, id: u64)
    requires IsRing(ring)
    ensures ring != Mark(ring, id) <==> !Marked(ring, id)
  {
    var k := Slot(Block(id));
    UpdateChanges(ring[k], BitOf(id), true);
    UpdateChanges(ring, k, OrBit(ring[k], BitOf(id)));
  }

  /** One call refines one step of the plain set. */
  lemma {:induction false} ValidateRefines(w: Window, s: set<u64>, id: u64, limit: u64)
    requires Represents(w, s)
    ensures var (w', ok) := Validate(w, id, limit);
            && ok == Admits(s, w.last, id, limit)
            && Represents(w', if ok then s + {id} else s)
  {
    if id < limit && w.last - id <= WINDOW_SIZE {
      var a := Advance(w, id);
      if w.last < id {
        AdvanceRepresents(w, s, id);
      }
      assert InSpan(a.last, id);
      MarkChanges(a.ring, id);
      var w' := Validate(w, id, limit).0;
      forall q: u64 | InSpan(a.last, q)
        ensures Marked(w'.ring, q) <==> q in s + {id}
      {
        MarkAddsOne(a.ring, a.last, id, q);
      }
      if id in s {
        assert s + {id} == s;
      }
    }
  }

  lemma LargestUnique(s: set<u64>, a: u64, b: u64)
    requires IsLargest(s, a) && IsLargest(s, b)
    ensures a == b
  {
  }

  lemma FreshRepresents()
    ensures Represents(Fresh(), {})
  {
  }

  /** Whatever the other 127 words hold, a reset filter stands for the empty set. */
  lemma ResetRepresents(w: Window)
    requires w.Shaped()
    ensures Represents(ResetWindow(w), {})
  {
  }

  // ----- Whole runs

  datatype Call = Call(id: u64, limit: u64)

  function Answers(w: Window, calls: seq<Call>): (r: seq<bool>)
    requires w.Shaped()
    ensures |r| == |calls|
    decreases |calls|
  {
    if calls == [] then []
    else
      var (w', ok) := Validate(w, calls[0].id, calls[0].limit);
      [ok] + Answers(w', calls[1..])
  }

  function After(w: Window, calls: seq<Call>): (r: Window)
    requires w.Shaped()
    ensures r.Shaped()
    decreases |calls|
  {
    if calls == [] then w else After(Validate(w, calls[0].id, calls[0].limit).0, calls[1..])
  }

  /** The ids that the first `n` calls accepted. */
  ghost function Accepted(calls: seq<Call>, answers: seq<bool>, n: nat): set<u64>
    requires n <= |calls| == |answers|
  {
    set i | 0 <= i < n && answers[i] :: calls[i].id
  }

  ghost predicate AnswersMeanSet(s: set<u64>, calls: seq<Call>, answers: seq<bool>)
    requires |calls| == |answers|
  {
    forall i, m :: 0 <= i < |calls| && IsLargest(s + Accepted(calls, answers, i), m) ==>
      answers[i] == Admits(s + Accepted(calls, answers, i), m, calls[i].id, calls[i].limit)
  }

  lemma {:induction false} RunMeansSet(w: Window, s: set<u64>, calls: seq<Call>)
    requires Represents(w, s)
    ensures AnswersMeanSet(s, calls, Answers(w, calls))
    decreases |calls|
  {
    if calls != [] {
      var answers := Answers(w, calls);
      var (w', ok) := Validate(w, calls[0].id, calls[0].limit);
      ValidateRefines(w, s, calls[0].id, calls[0].limit);
      var s' := if ok then s + {calls[0].id} else s;
      RunMeansSet(w', s', calls[1..]);
      forall i, m | 0 <= i < |calls| && IsLargest(s + Accepted(calls, answers, i), m)
        ensures answers[i] == Admits(s + Accepted(calls, answers, i), m, calls[i].id, calls[i].limit)
      {
        if i == 0 {
          assert s + Accepted(calls, answers, 0) == s;
          LargestUnique(s, m, w.last);
        } else {
          AcceptedTail(s, calls, answers, i);
          assert s + Accepted(calls, answers, i) == s' + Accepted(calls[1..], answers[1..], i - 1);
          assert calls[i] == calls[1..][i - 1] && answers[i] == answers[1..][i - 1];
        }
      }
    }
  }

  lemma AcceptedTail(s: set<u64>, calls: seq<Call>, answers: seq<bool>, n: nat)
    requires 0 < n <= |calls| == |answers|
    ensures s + Accepted(calls, answers, n)
         == (if answers[0] then s + {calls[0].id} else s) + Accepted(calls[1..], answers[1..], n - 1)
  {
  }

  /** From a new filter, call `i` says yes exactly when its id is below the
      limit, at most 8128 behind the largest id accepted before, and not accepted before. */
  lemma {:induction false} WindowIsExact(calls: seq<Call>, answers: seq<bool>, i: nat, largest: u64)
    requires answers == Answers(Fresh(), calls) && i < |calls| == |answers|
    requires IsLargest(Accepted(calls, answers, i), largest)
    ensures answers[i] <==>
            && calls[i].id < calls[i].limit
            && largest - calls[i].id <= 8128
            && calls[i].id !in Accepted(calls, answers, i)
  {
    hide Answers, Fresh;
    FreshRepresents();
    RunMeansSet(Fresh(), {}, calls);
    assert {} + Accepted(calls, answers, i) == Accepted(calls, answers, i);
  }

  /** No id is accepted twice in one run, whatever the limits. */
  lemma {:induction false} AcceptedAtMostOnce(calls: seq<Call>, answers: seq<bool>, i: nat, j: nat)
    requires answers == Answers(Fresh(), calls) && i < j < |calls| == |answers|
    requires calls[i].id == calls[j].id && answers[i]
    ensures !answers[j]
  {
    hide Answers, Fresh;
    var earlier := Accepted(calls, answers, j);
    assert calls[i].id in earlier;
    var m := LargestExists(earlier);
    WindowIsExact(calls, answers, j, m);
  }

  lemma LargestExists(s: set<u64>) returns (m: u64)
    ensures IsLargest(s, m)
    decreases s
  {
    if s == {} {
      m := 0;
    } else {
      var x :| x in s;
      var rest := s - {x};
      var n := LargestExists(rest);
      m := if n < x then x else n;
      forall q | q in s
        ensures q <= m
      {
        assert q == x || q in rest;
      }
    }
  }

  /** Two filters that stand for the same set answer every later run alike. */
  lemma {:induction false} SameSetSameAnswers(v: Window, w: Window, s: set<u64>, calls: seq<Call>)
    requires Represents(v, s) && Represents(w, s)
    ensures Answers(v, calls) == Answers(w, calls)
    decreases |calls|
  {
    if calls != [] {
      LargestUnique(s, v.last, w.last);
      ValidateRefines(v, s, calls[0].id, calls[0].limit);
      ValidateRefines(w, s, calls[0].id, calls[0].limit);
      var (v', ok) := Validate(v, calls[0].id, calls[0].limit);
      SameSetSameAnswers(v', Validate(w, calls[0].id, calls[0].limit).0,
                         if ok then s + {calls[0].id} else s, calls[1..]);
    }
  }

  /** `reset` clears one word of 128, yet after any history the filter behaves as new. */
  lemma {:induction false} ResetBehavesAsNew(before: seq<Call>, later: seq<Call>)
    ensures Answers(ResetWindow(After(Fresh(), before)), later) == Answers(Fresh(), later)
  {
    ResetRepresents(After(Fresh(), before));
    FreshRepresents();
    SameSetSameAnswers(ResetWindow(After(Fresh(), before)), Fresh(), {}, later);
  }

  // ----- The filter updated in place

  class PacketWindowFilter {
    var lastPacketId: u64
    const packetRing: array<Word>
    ghost var accepted: set<u64>

    ghost function View(): Window
      reads this, packetRing
    {
      Window(lastPacketId, packetRing[..])
    }

    ghost predicate Valid()
      reads this, packetRing
    {
      Represents(View(), accepted)
    }

    constructor ()
      ensures Valid() && accepted == {} && fresh(packetRing) && View() == Fresh()
    {
      lastPacketId := 0;
      packetRing := new Word[RING_BLOCKS](_ => Zero());
      accepted := {};
      new;
      assert packetRing[..] == Fresh().ring;
      FreshRepresents();
    }

    method Reset()
      requires Valid()
      modifies this, packetRing
      ensures Valid() && accepted == {}
      ensures View() == ResetWindow(old(View()))
    {
      ghost var was := View();
      lastPacketId := 0;
      packetRing[0] := Zero();
      accepted := {};
      assert packetRing[..] == was.ring[0 := Zero()];
      ResetRepresents(was);
    }

    /** Clears the blocks between the newest one and that of `packetId`. */
    method MoveForward(packetId: u64)
      requires View().Shaped() && packetId > lastPacketId
      modifies this`lastPacketId, packetRing
      ensures View() == Advance(old(View()), packetId)
    {
      ghost var ring := packetRing[..];
      var current := lastPacketId / BLOCK_BITS;
      var diff := packetId / BLOCK_BITS - current;
      if diff > RING_BLOCKS {
        diff := RING_BLOCKS;
      }
      for d := 1 to diff + 1
        invariant packetRing[..] == Clear(ring, current, d - 1)
      {
        packetRing[(current + d) % RING_BLOCKS] := Zero();
      }
      lastPacketId := packetId;
    }

    method ValidatePacketId(packetId: u64, limit: u64) returns (ok: bool)
      requires Valid()
      modifies this, packetRing
      ensures Valid()
      ensures ok == Admits(old(accepted), old(lastPacketId), packetId, limit)
      ensures accepted == if ok then old(accepted) + {packetId} else old(accepted)
      ensures (View(), ok) == Validate(old(View()), packetId, limit)
    {
      ValidateRefines(View(), accepted, packetId, limit);
      if packetId >= limit {
        return false;
      }
      if packetId > lastPacketId {
        MoveForward(packetId);
      } else if lastPacketId - packetId > WINDOW_SIZE {
        return false;
      }
      ghost var advanced := packetRing[..];
      var indexBlock := packetId / BLOCK_BITS % RING_BLOCKS;
      var oldWord := packetRing[indexBlock];
      var newWord := OrBit(oldWord, BitOf(packetId));
      packetRing[indexBlock] := newWord;
      UpdateChanges(advanced, indexBlock, newWord);
      assert packetRing[..] == advanced[indexBlock := newWord];
      ok := oldWord != newWord;
      if ok {
        accepted := accepted + {packetId};
      }
    }
  }
}
