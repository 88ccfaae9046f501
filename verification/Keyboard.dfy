/** The ring between the keyboard interrupt and the shell. */
module Keyboard {
  import opened Words

  const RING := 256

  /** The characters between two ring positions. */
  function Window(buffer: seq<char>, tail: int, n: int): (r: seq<char>)
    requires |buffer| == RING && 0 <= tail < RING && 0 <= n
    ensures |r| == n
  {
    seq(n, i requires 0 <= i < n => buffer[(tail + i) % RING])
  }

  function Count(head: int, tail: int): (n: int)
    requires 0 <= head < RING && 0 <= tail < RING
    ensures 0 <= n < RING && (n == 0 <==> head == tail)
  {
    if head >= tail then head - tail else head - tail + RING
  }

  /** One more character at the head. */
  lemma WindowPush(buffer: seq<char>, tail: int, n: int, c: char)
    requires |buffer| == RING && 0 <= tail < RING && 0 <= n < RING - 1
    ensures Window(buffer[(tail + n) % RING := c], tail, n + 1) == Window(buffer, tail, n) + [c]
  {
    var to := buffer[(tail + n) % RING := c];
    forall i | 0 <= i < n
      ensures Window(to, tail, n + 1)[i] == Window(buffer, tail, n)[i]
    {
      assert (tail + i) % RING != (tail + n) % RING;
    }
  }

  lemma NextPlace(tail: int, i: nat)
    requires 0 <= tail < RING
    ensures ((tail + 1) % RING + i) % RING == (tail + (i + 1)) % RING
  {
    if tail + 1 == RING {
      assert (i + RING) % RING == i % RING;
    }
  }

  /** One character less at the tail. */
  lemma WindowPop(buffer: seq<char>, tail: int, n: int)
    requires |buffer| == RING && 0 <= tail < RING && 0 < n
    ensures Window(buffer, tail, n) == [buffer[tail]] + Window(buffer, (tail + 1) % RING, n - 1)
  {
    var rest := Window(buffer, (tail + 1) % RING, n - 1);
    forall i | 0 <= i < |rest|
      ensures rest[i] == Window(buffer, tail, n)[1..][i]
    {
      NextPlace(tail, i);
    }
  }

  class Ring {
    const buffer: array<char>
    var head: u8
    var tail: u8

    /** What the consumer holds between reading a character and moving the tail. */
    var held: Option<char>

    /** Every character the interrupt stored, and every one the shell was given. */
    ghost var accepted: seq<char>
    ghost var delivered: seq<char>

    constructor ()
      ensures Valid() && fresh(buffer) && accepted == [] && delivered == [] && held == None
    {
      buffer := new char[RING];
      head, tail, held := 0, 0, None;
      accepted, delivered := [], [];
    }

    ghost function Waiting(): seq<char>
      requires buffer.Length == RING
      reads this, buffer
    {
      Window(buffer[..], tail, Count(head, tail))
    }

    ghost predicate Valid()
      reads this, buffer
    {
      && buffer.Length == RING && accepted == delivered + Waiting()
      && (held.Some? ==> head != tail && held.value == buffer[tail])
    }

    /** The interrupt: stores a character, or drops it when 255 are waiting. It may come at any point. */
    method Push(c: char)
      requires Valid()
      modifies `head, `accepted, buffer
      ensures Valid() && accepted == old(accepted) + if |old(accepted)| - |delivered| < 255 then [c] else []
    {
      var next: u8 := (head + 1) % RING;
      if next == tail {
        return;
      }
      hide Window;
      ghost var was, n := buffer[..], Count(head, tail);
      WindowPush(was, tail, n, c);
      buffer[head] := c;
      assert buffer[..] == was[(tail + n) % RING := c];
      head := next;
      accepted := accepted + [c];
    }

    /** First half of taking a character: look for one and read it. */
    method Read() returns (some: bool)
      requires Valid() && held.None?
      modifies `held
      ensures Valid() && (some <==> |accepted| > |delivered|) && (some <==> held.Some?)
    {
      some := head != tail;
      if some {
        held := Some(buffer[tail]);
      }
    }

    /** Second half: move the tail. Whatever was pushed in between, the oldest character is delivered. */
    method Advance() returns (c: char)
      requires Valid() && held.Some?
      modifies `held, `tail, `delivered
      ensures Valid() && held.None? && |old(delivered)| < |accepted|
      ensures c == accepted[|old(delivered)|] && delivered == old(delivered) + [c]
    {
      hide Window;
      c := held.value;
      WindowPop(buffer[..], tail, Count(head, tail));
      tail := (tail + 1) % RING;
      held := None;
      delivered := delivered + [c];
    }

    ghost function Now(): Keys
      reads this
    {
      Keys(accepted, delivered, held.Some?)
    }

    /** Any interleaving of the interrupt with the two halves: what is delivered is the front of what was accepted. */
    method Run(steps: seq<Step>)
      requires Valid()
      modifies this, buffer
      ensures Valid() && Now() == After(old(Now()), steps)
      ensures delivered <= accepted && |accepted| - |delivered| < RING
    {
      assert steps[..0] == [];
      for i := 0 to |steps|
        invariant Valid() && Now() == After(old(Now()), steps[..i])
      {
        assert steps[..i + 1][..i] == steps[..i];
        match steps[i] {
          case Interrupt(c) =>
            Push(c);
          case Consume =>
            if held.None? {
              var some := Read();
            } else {
              var c := Advance();
            }
        }
      }
      assert steps[..|steps|] == steps;
    }
  }

  datatype Step = Interrupt(c: char) | Consume

  /** The ring as a queue: what came in, what went out, and whether the consumer is half-way. */
  datatype Keys = Keys(accepted: seq<char>, delivered: seq<char>, held: bool)

  function Stepped(k: Keys, step: Step): (r: Keys) {
    match step
    case Interrupt(c) => if |k.accepted| - |k.delivered| < RING - 1 then k.(accepted := k.accepted + [c]) else k
    case Consume =>
      if !k.held then k.(held := |k.accepted| > |k.delivered|)
      else if |k.delivered| < |k.accepted| then Keys(k.accepted, k.delivered + [k.accepted[|k.delivered|]], false)
      else k.(held := false)
  }

  function After(k: Keys, steps: seq<Step>): (r: Keys) {
    if steps == [] then k else Stepped(After(k, steps[..|steps| - 1]), steps[|steps| - 1])
  }
}
