/** The message table: a fixed array of slots that stands for a bag of letters. */
module Ipc {
  import opened Words

  const MAX_MESSAGES := 64
  const TEXT_MAX := 64

  datatype Letter = Letter(from: u32, to: u32, text: Str)

  datatype Slot = Slot(used: bool, letter: Letter)

  const NO_LETTER := Letter(0, 0, [])

  ghost function Own(s: Slot): multiset<Letter> {
    if s.used then multiset{s.letter} else multiset{}
  }

  ghost function Bag(slots: seq<Slot>): multiset<Letter> {
    if slots == [] then multiset{} else Bag(slots[..|slots| - 1]) + Own(slots[|slots| - 1])
  }

  lemma {:induction false} BagUpdate(slots: seq<Slot>, i: int, s: Slot)
    requires 0 <= i < |slots|
    ensures Bag(slots[i := s]) + Own(slots[i]) == Bag(slots) + Own(s)
  {
    hide Own;
    var front, n := slots[..|slots| - 1], |slots| - 1;
    assert slots[i := s][..n] == if i < n then front[i := s] else front;
    if i < n {
      BagUpdate(front, i, s);
      assert Bag(slots[i := s]) == Bag(front[i := s]) + Own(slots[n]);
      AddBoth(Bag(front[i := s]), Own(slots[i]), Bag(front), Own(s), Own(slots[n]));
    }
  }

  lemma AddBoth(a: multiset<Letter>, b: multiset<Letter>, c: multiset<Letter>, d: multiset<Letter>, x: multiset<Letter>)
    requires a + b == c + d
    ensures (a + x) + b == (c + x) + d
  {
    assert (a + x) + b == (a + b) + x;
    assert (c + x) + d == (c + d) + x;
  }

  lemma BagSame(slots: seq<Slot>, i: int, s: Slot)
    requires 0 <= i < |slots| && !slots[i].used && !s.used
    ensures Bag(slots[i := s]) == Bag(slots)
  {
    hide Bag;
    BagUpdate(slots, i, s);
    assert Bag(slots[i := s]) == Bag(slots[i := s]) + Own(slots[i]);
  }

  lemma BagStep(slots: seq<Slot>, i: int)
    requires 0 <= i < |slots|
    ensures Bag(slots[..i + 1]) == Bag(slots[..i]) + Own(slots[i])
  {
    assert slots[..i + 1][..i] == slots[..i];
  }

  /** An entry of the log: a letter that was accepted, and how many had been received before. */
  datatype Sent = Sent(letter: Letter, epoch: int)

  /** A used slot holds the letter of its log entry. */
  ghost predicate Filed(s: Slot, k: int, log: seq<Sent>, received: int) {
    s.used ==>
      && 0 <= k < |log| && log[k].letter == s.letter && 0 <= log[k].epoch <= received && 0 < |s.letter.text| < TEXT_MAX
  }

  /**
   Letters sent with no receive between them lie in the order in which they were sent, each once; since the last
   receive no slot became free.
   */
  ghost predicate Ordered(slots: seq<Slot>, at: seq<int>, log: seq<Sent>, received: int) {
    && |slots| == |at| == MAX_MESSAGES
    && (forall i :: 0 <= i < |slots| ==> Filed(slots[i], at[i], log, received))
    && (forall i, j :: 0 <= i < j < |slots| && slots[i].used && slots[j].used ==>
          at[i] != at[j] && (log[at[i]].epoch == log[at[j]].epoch ==> at[i] < at[j]))
    && (forall i, j :: 0 <= j < i < |slots| && slots[i].used && log[at[i]].epoch == received ==> slots[j].used)
  }

  ghost predicate Pending(slots: seq<Slot>, at: seq<int>, k: int) {
    exists i :: 0 <= i < |slots| == |at| && slots[i].used && at[i] == k
  }

  /** Every accepted letter waits in the table or was received, and none was received twice. */
  ghost predicate Accounted(slots: seq<Slot>, at: seq<int>, log: seq<Sent>, got: seq<int>) {
    && (forall k :: 0 <= k < |log| ==> (Pending(slots, at, k) <==> k !in got))
    && (forall q :: 0 <= q < |got| ==> 0 <= got[q] < |log|)
    && (forall q, r :: 0 <= q < r < |got| ==> got[q] != got[r])
  }

  /** To one receiver, letters sent with no receive between them were received in the order in which they were sent. */
  ghost predicate Fifo(log: seq<Sent>, got: seq<int>) {
    forall q, k :: 0 <= q < |got| && 0 <= k < got[q] < |log| && SameStretch(log[k], log[got[q]]) ==> k in got[..q]
  }

  predicate SameStretch(a: Sent, b: Sent) {
    a.letter.to == b.letter.to && a.epoch == b.epoch
  }

  lemma SendKeeps(slots: seq<Slot>, at: seq<int>, log: seq<Sent>, received: nat, i: int, letter: Letter)
    requires Ordered(slots, at, log, received) && 0 <= i < |slots| && !slots[i].used && 0 < |letter.text| < TEXT_MAX
    requires forall j :: 0 <= j < i ==> slots[j].used
    ensures Ordered(slots[i := Slot(true, letter)], at[i := |log|], log + [Sent(letter, received)], received)
  {
    var slots', at', log' := slots[i := Slot(true, letter)], at[i := |log|], log + [Sent(letter, received)];
    forall j | 0 <= j < |slots| && slots[j].used
      ensures at[j] < |log| && log'[at[j]] == log[at[j]] && (log[at[j]].epoch == received ==> j < i)
    {
      assert Filed(slots[j], at[j], log, received);
    }
    forall j | 0 <= j < |slots'|
      ensures Filed(slots'[j], at'[j], log', received)
    {
      assert j != i ==> Filed(slots[j], at[j], log, received);
    }
  }

  lemma SendAccounts(slots: seq<Slot>, at: seq<int>, log: seq<Sent>, got: seq<int>, i: int, letter: Letter, e: Sent)
    requires Ordered(slots, at, log, |got|) && Accounted(slots, at, log, got) && Fifo(log, got)
    requires 0 <= i < |slots| && !slots[i].used
    ensures Accounted(slots[i := Slot(true, letter)], at[i := |log|], log + [e], got) && Fifo(log + [e], got)
  {
    var slots', at', log' := slots[i := Slot(true, letter)], at[i := |log|], log + [e];
    forall k | 0 <= k < |log'|
      ensures Pending(slots', at', k) <==> k !in got
    {
      if k < |log| {
        if j :| 0 <= j < |slots| && slots[j].used && at[j] == k {
          assert slots'[j].used && at'[j] == k;
        }
        if j :| 0 <= j < |slots| && slots'[j].used && at'[j] == k {
          assert slots[j].used && at[j] == k;
        }
      } else {
        assert slots'[i].used && at'[i] == k;
      }
    }
  }

  /** The letters waiting for a receiver lie in the table in the order in which they were sent. */
  ghost predicate InOrder(slots: seq<Slot>, at: seq<int>, to: u32)
    requires |slots| == |at|
  {
    forall i, j :: 0 <= i < j < |slots| && WaitsFor(slots[i], to) && WaitsFor(slots[j], to) ==> at[i] < at[j]
  }

  predicate WaitsFor(s: Slot, to: u32) {
    s.used && s.letter.to == to
  }

  /** A receiver whose letters lie in order gets the one sent first. */
  lemma OldestFirst(slots: seq<Slot>, at: seq<int>, to: u32, k: int, j: int)
    requires |slots| == |at| && InOrder(slots, at, to) && 0 <= k < |slots| && 0 <= j < |slots|
    requires WaitsFor(slots[k], to) && (forall i :: 0 <= i < k ==> !WaitsFor(slots[i], to)) && WaitsFor(slots[j], to)
    ensures at[k] <= at[j]
  {
  }

  /**
   A send into the first free slot keeps the receiver's letters in order exactly when none of them lies behind that
   slot; otherwise the new letter overtakes them.
   */
  lemma SendInOrder(slots: seq<Slot>, at: seq<int>, log: seq<Sent>, received: nat, i: int, letter: Letter)
    requires Ordered(slots, at, log, received) && 0 <= i < |slots| && !slots[i].used && InOrder(slots, at, letter.to)
    ensures InOrder(slots[i := Slot(true, letter)], at[i := |log|], letter.to) <==>
            forall j :: i < j < |slots| ==> !WaitsFor(slots[j], letter.to)
  {
    var slots', at' := slots[i := Slot(true, letter)], at[i := |log|];
    forall j | 0 <= j < |slots| && slots[j].used
      ensures slots'[j] == slots[j] && at'[j] == at[j] < |log|
    {
      assert Filed(slots[j], at[j], log, received);
    }
    assert WaitsFor(slots'[i], letter.to);
    assert forall j :: 0 <= j < |slots| && j != i ==> WaitsFor(slots'[j], letter.to) == WaitsFor(slots[j], letter.to);
  }

  lemma ReceiveKeeps(slots: seq<Slot>, at: seq<int>, log: seq<Sent>, received: nat, i: int)
    requires Ordered(slots, at, log, received) && 0 <= i < |slots|
    ensures Ordered(slots[i := Slot(false, NO_LETTER)], at, log, received + 1)
  {
    var slots' := slots[i := Slot(false, NO_LETTER)];
    forall j | 0 <= j < |slots'|
      ensures Filed(slots'[j], at[j], log, received + 1)
    {
      assert Filed(slots[j], at[j], log, received);
    }
  }

  /** The first letter in the table for a receiver is the next one of its stretch. */
  lemma ReceiveAccounts(slots: seq<Slot>, at: seq<int>, log: seq<Sent>, got: seq<int>, i: int)
    requires Ordered(slots, at, log, |got|) && Accounted(slots, at, log, got) && Fifo(log, got)
    requires 0 <= i < |slots| && slots[i].used
    requires forall j :: 0 <= j < i ==> !(slots[j].used && slots[j].letter.to == slots[i].letter.to)
    ensures Accounted(slots[i := Slot(false, NO_LETTER)], at, log, got + [at[i]]) && Fifo(log, got + [at[i]])
  {
    var slots', got' := slots[i := Slot(false, NO_LETTER)], got + [at[i]];
    assert Filed(slots[i], at[i], log, |got|);
    assert Pending(slots, at, at[i]);
    forall k | 0 <= k < |log|
      ensures Pending(slots', at, k) <==> k !in got'
    {
      if j :| 0 <= j < |slots| && j != i && slots[j].used && at[j] == k {
        assert slots'[j].used && at[j] == k && k != at[i];
      }
    }
    forall k | 0 <= k < at[i] && SameStretch(log[k], log[at[i]])
      ensures k in got
    {
      assert k !in got ==> Pending(slots, at, k);
    }
    forall q, k | 0 <= q < |got'| && 0 <= k < got'[q] < |log| && SameStretch(log[k], log[got'[q]])
      ensures k in got'[..q]
    {
      assert got'[..q] == got[..q];
      assert q == |got| ==> got[..q] == got;
    }
  }

  lemma RefusalKeeps(slots: seq<Slot>, at: seq<int>, log: seq<Sent>, got: seq<int>, i: int, letter: Letter)
    requires Ordered(slots, at, log, |got|) && Accounted(slots, at, log, got) && 0 <= i < |slots| && !slots[i].used
    ensures Ordered(slots[i := Slot(false, letter)], at, log, |got|)
            && Accounted(slots[i := Slot(false, letter)], at, log, got)
  {
    var slots' := slots[i := Slot(false, letter)];
    forall j | 0 <= j < |slots'|
      ensures Filed(slots'[j], at[j], log, |got|)
    {
      assert Filed(slots[j], at[j], log, |got|);
    }
    forall k | 0 <= k < |log|
      ensures Pending(slots', at, k) <==> Pending(slots, at, k)
    {
      if j :| 0 <= j < |slots| && slots[j].used && at[j] == k {
        assert slots'[j].used;
      }
      if j :| 0 <= j < |slots| && slots'[j].used && at[j] == k {
        assert slots[j].used;
      }
    }
  }

  class Table {
    var slots: seq<Slot>
    var ready: bool

    /** Every letter accepted, in order; for each slot the entry of its letter; and the entries received, in order. */
    ghost var log: seq<Sent>
    ghost var at: seq<int>
    ghost var got: seq<int>

    constructor ()
      ensures ready && Valid() && Bag(slots) == multiset{} && log == [] && got == []
      ensures forall i :: 0 <= i < |slots| ==> !slots[i].used
    {
      slots := seq(MAX_MESSAGES, _ => Slot(false, NO_LETTER));
      ready := true;
      at := seq(MAX_MESSAGES, _ => 0);
      log, got := [], [];
      new;
      EmptyBag(slots);
    }

    ghost function Now(): Box
      reads this
    {
      Box(ready, slots, log, got)
    }

    ghost predicate Valid()
      reads this
    {
      Ordered(slots, at, log, |got|) && Accounted(slots, at, log, got) && Fifo(log, got)
    }

    /**
     Puts a letter into the first free slot and into the log. It succeeds exactly when there is a receiver, a text
     that is not empty, and a free slot; then the bag gains that letter, its text cut to 63 bytes.
     */
    method Send(from: u32, to: u32, message: Option<Str>) returns (ok: bool, ghost i: int)
      requires Valid()
      modifies this
      ensures Valid() && ready == old(ready) && got == old(got)
      ensures ok <==> ready && to != 0 && message.Some? && message.value != [] && |Bag(old(slots))| < 64
      ensures !ok ==> log == old(log) && at == old(at) && Bag(slots) == Bag(old(slots))
      ensures !ok ==> |slots| == |old(slots)|
                      && forall j :: 0 <= j < |slots| && old(slots)[j].used ==> slots[j] == old(slots)[j]
      ensures ok ==>
                var letter := Letter(from, to, Truncated(message.value, 64));
                && |slots| == |old(slots)| == |old(at)| && 0 <= i < |slots| && !old(slots)[i].used
                && slots == old(slots)[i := Slot(true, letter)] && at == old(at)[i := |old(log)|]
                && (forall j :: 0 <= j < i ==> old(slots)[j].used)
                && log == old(log) + [Sent(letter, |got|)] && Bag(slots) == Bag(old(slots)) + multiset{letter}
    {
      hide Ordered, Bag, Accounted, Fifo;
      i := 0;
      if !ready || to == 0 || message.None? {
        return false, 0;
      }
      Sizes();
      for n := 0 to MAX_MESSAGES
        invariant forall j :: 0 <= j < n ==> slots[j].used
        invariant unchanged(this)
      {
        if !slots[n].used {
          SpareSlot(slots, n);
          var letter := Letter(from, to, Truncated(message.value, TEXT_MAX));
          if |letter.text| == 0 {
            BagSame(slots, n, Slot(false, letter));
            RefusalKeeps(slots, at, log, got, n, letter);
            slots := slots[n := Slot(false, letter)];
            return false, 0;
          }
          BagUpdate(slots, n, Slot(true, letter));
          SendKeeps(slots, at, log, |got|, n, letter);
          SendAccounts(slots, at, log, got, n, letter, Sent(letter, |got|));
          slots := slots[n := Slot(true, letter)];
          at := at[n := |log|];
          log := log + [Sent(letter, |got|)];
          return true, n;
        }
      }
      AllTaken(slots);
      return false, 0;
    }

    lemma Sizes()
      requires Valid()
      ensures |slots| == |at| == MAX_MESSAGES
    {
    }

    /**
     Takes the first letter for a receiver out of the table: the bag loses exactly that letter, which is the one of
     its log entry. 0 without a letter, -1 for bad arguments.
     */
    method Receive(to: u32, out: array?<u8>) returns (n: int, from: u32, ghost k: int)
      requires Valid()
      modifies this, out
      ensures Valid() && ready == old(ready) && log == old(log) && at == old(at)
      ensures n >= -1 && (n < 0 <==> !ready || to == 0 || out == null || out.Length == 0)
      ensures n < 0 || k < 0 ==> slots == old(slots) && got == old(got)
      ensures n >= 0 && k < 0 ==> n == 0 && out[0] == 0
      ensures n >= 0 && k < 0 ==> forall i :: 0 <= i < |slots| && slots[i].used ==> slots[i].letter.to != to
      ensures n >= 0 && k >= 0 ==>
                && k < |old(slots)| == |old(at)| && old(slots)[k].used && old(slots)[k].letter.to == to
                && slots == old(slots)[k := Slot(false, NO_LETTER)] && got == old(got) + [old(at)[k]]
                && forall j :: 0 <= j < k ==> !(old(slots)[j].used && old(slots)[j].letter.to == to)
      ensures n >= 0 && k >= 0 ==>
                && 0 <= at[k] < |log| && Bag(old(slots)) == Bag(slots) + multiset{log[at[k]].letter}
                && log[at[k]].letter.to == to && log[at[k]].letter.from == from
                && n == |Truncated(log[at[k]].letter.text, out.Length)| && out[n] == 0 && (out.Length > 1 ==> n > 0)
                && out[..n] == Truncated(log[at[k]].letter.text, out.Length)
    {
      hide Ordered, Bag, Truncated, Accounted, Fifo;
      k, from := -1, 0;
      Sizes();
      if !ready || to == 0 || out == null || out.Length == 0 {
        return -1, 0, -1;
      }
      for i := 0 to MAX_MESSAGES
        invariant unchanged(this)
        invariant forall j :: 0 <= j < i ==> !(slots[j].used && slots[j].letter.to == to)
      {
        if slots[i].used && slots[i].letter.to == to {
          k := i;
          FiledAt(i);
          SomeText(slots[i].letter.text, out.Length);
          n := CopyOut(out, slots[i].letter.text);
          from := slots[i].letter.from;
          BagUpdate(slots, i, Slot(false, NO_LETTER));
          ReceiveKeeps(slots, at, log, |got|, i);
          ReceiveAccounts(slots, at, log, got, i);
          slots := slots[i := Slot(false, NO_LETTER)];
          got := got + [at[i]];
          return;
        }
      }
      out[0] := 0;
      n := 0;
    }

    lemma FiledAt(i: int)
      requires Valid() && 0 <= i < |slots|
      ensures Filed(slots[i], at[i], log, |got|)
    {
    }

    /**
     Any sequence of sends, and of receives into buffers of any size. The log grows by exactly the letters that were
     accepted, each with the number received before it; every letter waits or was received once; and within each
     stretch without receives they come first in, first out. What each operation does and answers is `Did`.
     */
    method Run(ops: seq<IpcOp>) returns (answers: seq<Answer>, ghost oks: seq<bool>, ghost trace: seq<Box>)
      requires Valid()
      modifies this
      ensures Valid() && Fifo(log, got) && Accounted(slots, at, log, got) && |answers| == |oks| == |ops|
      ensures log == old(log) + Accepted(ops, oks, |old(got)|)
      ensures |got| == |old(got)| + Fetched(ops, oks) && old(got) <= got
      ensures |trace| == |ops| + 1 && trace[0] == old(Now()) && trace[|ops|] == Now()
      ensures forall i :: 0 <= i < |ops| ==>
                (oks[i] <==> Happens(trace[i], ops[i])) && Did(trace[i], ops[i], answers[i], trace[i + 1])
    {
      hide Ordered, Accounted, Fifo, Accepted, Fetched, Did, Happens, NewEntry;
      answers, oks, trace := [], [], [Now()];
      assert ops[..0] == [];
      NoneYet(|got|);
      for n := 0 to |ops|
        invariant Valid() && |answers| == |oks| == n && log == old(log) + Accepted(ops[..n], oks, |old(got)|)
        invariant |got| == |old(got)| + Fetched(ops[..n], oks) && old(got) <= got
        invariant |trace| == n + 1 && trace[0] == old(Now()) && trace[n] == Now()
        invariant forall i :: 0 <= i < n ==>
                    (oks[i] <==> Happens(trace[i], ops[i])) && Did(trace[i], ops[i], answers[i], trace[i + 1])
      {
        var op := ops[n];
        ghost var ok := Happens(Now(), op);
        var answer := Step(op);
        OneMoreOp(ops[..n], oks, op, ok, |old(got)|);
        assert ops[..n + 1] == ops[..n] + [op];
        answers, oks, trace := answers + [answer], oks + [ok], trace + [Now()];
      }
      assert ops[..|ops|] == ops;
    }

    method Step(op: IpcOp) returns (answer: Answer)
      requires Valid()
      modifies this
      ensures Valid() && log == old(log) + NewEntry(op, Happens(old(Now()), op), |old(got)|)
      ensures old(got) <= got && |got| == |old(got)| + if op.Fetch? && Happens(old(Now()), op) then 1 else 0
      ensures Did(old(Now()), op, answer, Now())
    {
      hide Ordered, Accounted, Fifo, Bag, Truncated;
      match op {
        case Post(from, to, message) =>
          ghost var i;
          var ok;
          ok, i := Send(from, to, message);
          answer := Answer(if ok then 1 else 0, 0, []);
        case Fetch(to, size) =>
          var out := new u8[size];
          var n, from;
          ghost var k;
          n, from, k := Receive(to, out);
          answer := Answer(n, from, if n < 0 then [] else out[..n]);
          if n >= 0 && k >= 0 {
            assert Happens(old(Now()), op) by { assert WaitsFor(old(slots)[k], to); }
            assert GotOne(old(Now()), to, size, answer, Now(), at[k]);
          } else {
            assert !Happens(old(Now()), op);
          }
      }
    }

    // Two runs from the empty table: what the answers do not show

    /** A letter fetched into one byte was accepted and is gone, and the answer is that of an empty table. */
    static method LostExample(from: u32, to: u32, text: Str) returns (table: Table, ok: bool, n: int)
      requires to != 0 && text != []
      ensures fresh(table) && table.Valid() && ok && n == 0
      ensures table.log == [Sent(Letter(from, to, Truncated(text, TEXT_MAX)), 0)]
      ensures table.got == [0] && Bag(table.slots) == multiset{}
    {
      hide Ordered, Accounted, Fifo, Truncated, Bag;
      table := new Table();
      var sender;
      ghost var i, k;
      ok, i := table.Send(from, to, Some(text));
      assert table.slots[i].used && table.slots[i].letter.to == to;
      var out := new u8[1];
      n, sender, k := table.Receive(to, out);
      OnlyLetter(Bag(table.slots), table.log[0].letter);
    }

    /** A slot freed by task 2 takes the second letter to task 1, which is received before the first. */
    static method OvertakeExample(first: Str, second: Str) returns (table: Table, n: int, text: seq<u8>)
      requires first != [] && second != []
      ensures fresh(table) && table.Valid()
      ensures table.log == [Sent(Letter(1, 2, [33]), 0), Sent(Letter(1, 1, Truncated(first, TEXT_MAX)), 0),
                            Sent(Letter(1, 1, Truncated(second, TEXT_MAX)), 1)]
      ensures table.got == [0, 2] && n == |text| && text == Truncated(second, TEXT_MAX)
    {
      hide Ordered, Accounted, Fifo, Truncated, Bag;
      table := new Table();
      var out := new u8[TEXT_MAX];
      var ok, from;
      ghost var i, k;
      table.Sizes();
      assert !table.slots[0].used && !table.slots[1].used;
      ok, i := table.Send(1, 2, Some([33]));
      assert ok && i == 0 && table.slots[0].used && !table.slots[1].used;
      ok, i := table.Send(1, 1, Some(first));
      assert ok && i == 1 && table.slots[0].used && table.slots[0].letter.to == 2;
      n, from, k := table.Receive(2, out);
      assert k == 0 && !table.slots[0].used && table.slots[1].used;
      SpareSlot(table.slots, 0);
      ok, i := table.Send(1, 1, Some(second));
      assert ok && i == 0 && table.slots[0].used && table.slots[0].letter.to == 1;
      n, from, k := table.Receive(1, out);
      assert k == 0;
      text := out[..n];
      TwiceCut(second);
    }

    method PendingCount() returns (count: nat)
      requires Valid()
      ensures count == if ready then |Bag(slots)| else 0
    {
      count := 0;
      if !ready {
        return;
      }
      for i := 0 to MAX_MESSAGES
        invariant count == |Bag(slots[..i])|
      {
        BagStep(slots, i);
        if slots[i].used {
          count := count + 1;
        }
      }
      assert slots[..MAX_MESSAGES] == slots;
    }
  }

  lemma SomeText(text: Str, size: int)
    requires text != [] && size > 0
    ensures size > 1 ==> |Truncated(text, size)| > 0
  {
  }

  lemma OnlyLetter(bag: multiset<Letter>, x: Letter)
    ensures bag + multiset{x} == multiset{x} ==> bag == multiset{}
  {
    assert bag == bag + multiset{x} - multiset{x};
  }

  lemma TwiceCut(text: Str)
    ensures Truncated(Truncated(text, TEXT_MAX), TEXT_MAX) == Truncated(text, TEXT_MAX)
  {
  }

  /** A send, or a receive into a buffer of some size. */
  datatype IpcOp = Post(from: u32, to: u32, message: Option<Str>) | Fetch(to: u32, size: nat)

  /** What a call returns: 0 or 1 for a send; for a receive the length of the text, with sender and text. */
  datatype Answer = Answer(n: int, from: u32, text: seq<u8>)

  /** The letter that a send leaves in the table. */
  function Cut(op: IpcOp): (r: Letter)
    requires op.Post?
  {
    Letter(op.from, op.to, if op.message.Some? then Truncated(op.message.value, TEXT_MAX) else [])
  }

  /** What an operation adds to the log when `received` letters have been received. */
  function NewEntry(op: IpcOp, ok: bool, received: int): (r: seq<Sent>) {
    if op.Post? && ok then [Sent(Cut(op), received)] else []
  }

  /** The number of fetches that got a letter. */
  function Fetched(ops: seq<IpcOp>, oks: seq<bool>): (n: nat)
    requires |ops| == |oks|
  {
    if ops == [] then 0
    else Fetched(ops[..|ops| - 1], oks[..|ops| - 1]) + if ops[|ops| - 1].Fetch? && oks[|ops| - 1] then 1 else 0
  }

  /** The log entries of the accepted sends, `received` letters having been received before. */
  function Accepted(ops: seq<IpcOp>, oks: seq<bool>, received: int): (r: seq<Sent>)
    requires |ops| == |oks|
  {
    if ops == [] then []
    else
      var n := |ops| - 1;
      Accepted(ops[..n], oks[..n], received) + NewEntry(ops[n], oks[n], received + Fetched(ops[..n], oks[..n]))
  }

  /** The table at one moment. */
  datatype Box = Box(ready: bool, slots: seq<Slot>, log: seq<Sent>, got: seq<int>)

  ghost predicate HasLetter(slots: seq<Slot>, to: u32) {
    exists i :: 0 <= i < |slots| && WaitsFor(slots[i], to)
  }

  /** Whether an operation changes the table: a send is accepted, or a receive takes a letter. */
  ghost predicate Happens(a: Box, op: IpcOp) {
    && a.ready && op.to != 0
    && (op.Post? ==> op.message.Some? && op.message.value != [] && |Bag(a.slots)| < MAX_MESSAGES)
    && (op.Fetch? ==> op.size > 0 && HasLetter(a.slots, op.to))
  }

  /** The letter of log entry `k` was taken out and handed over, cut to the buffer: nothing of it for one byte. */
  ghost predicate GotOne(a: Box, to: u32, size: nat, answer: Answer, b: Box, k: int) {
    && b.got == a.got + [k] && 0 <= k < |a.log| && a.log[k].letter.to == to && size > 0
    && Bag(a.slots) == Bag(b.slots) + multiset{a.log[k].letter}
    && answer.text == Truncated(a.log[k].letter.text, size) && answer.from == a.log[k].letter.from
    && answer.n == |answer.text| && (answer.n > 0 <==> size > 1)
  }

  /** One operation with its answer, from one moment to the next. */
  ghost predicate Did(a: Box, op: IpcOp, answer: Answer, b: Box) {
    && b.ready == a.ready && b.log == a.log + NewEntry(op, Happens(a, op), |a.got|)
    && (op.Post? ==>
          && answer.n == (if Happens(a, op) then 1 else 0) && b.got == a.got
          && Bag(b.slots) == if Happens(a, op) then Bag(a.slots) + multiset{Cut(op)} else Bag(a.slots))
    && (op.Fetch? && Happens(a, op) ==> exists k :: GotOne(a, op.to, op.size, answer, b, k))
    && (op.Fetch? && !Happens(a, op) ==>
          && b == a && answer.n == if a.ready && op.to != 0 && op.size > 0 then 0 else -1)
  }

  lemma NoneYet(received: int)
    ensures Accepted([], [], received) == [] && Fetched([], []) == 0
  {
  }

  lemma OneMoreOp(ops: seq<IpcOp>, oks: seq<bool>, op: IpcOp, ok: bool, received: int)
    requires |ops| == |oks|
    ensures Fetched(ops + [op], oks + [ok]) == Fetched(ops, oks) + if op.Fetch? && ok then 1 else 0
    ensures Accepted(ops + [op], oks + [ok], received) ==
            Accepted(ops, oks, received) + NewEntry(op, ok, received + Fetched(ops, oks))
  {
    assert (ops + [op])[..|ops|] == ops && (oks + [ok])[..|ops|] == oks;
  }

  method CopyOut(out: array<u8>, text: Str) returns (n: int)
    requires out.Length > 0
    modifies out
    ensures n == |Truncated(text, out.Length)| && out[..n] == Truncated(text, out.Length) && out[n] == 0
  {
    var i := 0;
    while i + 1 < out.Length && i < |text|
      invariant 0 <= i < out.Length && i <= |text|
      invariant forall j :: 0 <= j < i ==> out[j] == text[j]
    {
      out[i] := text[i];
      i := i + 1;
    }
    out[i] := 0;
    n := i;
  }

  lemma {:induction false} EmptyBag(slots: seq<Slot>)
    requires forall i :: 0 <= i < |slots| ==> !slots[i].used
    ensures Bag(slots) == multiset{}
  {
    if slots != [] {
      EmptyBag(slots[..|slots| - 1]);
    }
  }

  lemma {:induction false} BagBound(slots: seq<Slot>)
    ensures |Bag(slots)| <= |slots|
  {
    if slots != [] {
      BagBound(slots[..|slots| - 1]);
    }
  }

  lemma {:induction false} AllTaken(slots: seq<Slot>)
    requires forall i :: 0 <= i < |slots| ==> slots[i].used
    ensures |Bag(slots)| == |slots|
  {
    if slots != [] {
      AllTaken(slots[..|slots| - 1]);
    }
  }

  lemma {:induction false} SpareSlot(slots: seq<Slot>, i: int)
    requires 0 <= i < |slots| && !slots[i].used
    ensures |Bag(slots)| < |slots|
  {
    if i < |slots| - 1 {
      SpareSlot(slots[..|slots| - 1], i);
    } else {
      BagBound(slots[..|slots| - 1]);
    }
  }
}
