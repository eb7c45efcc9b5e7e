/** The keyboard buffer (drivers/keyboard.c): a ring of 128 cells, filled by the interrupt handler
    and emptied by the reader, which the handler may interrupt between any two accesses. */
module Keyboard {

  const BUFFER_SIZE := 128

  /** The ring as a value. */
  datatype Ring = Ring(cells: seq<char>, head: nat, tail: nat)

  predicate RingOk(r: Ring) {
    |r.cells| == BUFFER_SIZE && r.head < BUFFER_SIZE && r.tail < BUFFER_SIZE
  }

  function Successor(i: nat): nat {
    (i + 1) % BUFFER_SIZE
  }

  function Length(r: Ring): (n: nat)
    requires RingOk(r)
    ensures n < BUFFER_SIZE
  {
    if r.head >= r.tail then r.head - r.tail else r.head + BUFFER_SIZE - r.tail
  }

  /** The cell i places behind the tail. */
  function Place(r: Ring, i: nat): (k: nat)
    requires RingOk(r) && i < BUFFER_SIZE
    ensures k < BUFFER_SIZE
  {
    if r.tail + i < BUFFER_SIZE then r.tail + i else r.tail + i - BUFFER_SIZE
  }

  /** The characters waiting, oldest first. */
  function Waiting(r: Ring): (q: seq<char>)
    requires RingOk(r)
    ensures |q| == Length(r)
  {
    seq(Length(r), i requires 0 <= i < Length(r) => r.cells[Place(r, i)])
  }

  /** buffer_push */
  function PushRing(r: Ring, c: char): Ring
    requires RingOk(r)
  {
    var next := Successor(r.head);
    if next == r.tail then r else r.(cells := r.cells[r.head := c], head := next)
  }

  /** The most the ring holds: one cell stays free. */
  const CAPACITY := BUFFER_SIZE - 1

  lemma {:induction false} PushIsAppend(r: Ring, c: char)
    requires RingOk(r)
    ensures RingOk(PushRing(r, c))
    ensures Waiting(PushRing(r, c)) == if |Waiting(r)| < CAPACITY then Waiting(r) + [c] else Waiting(r)
  {
    var r' := PushRing(r, c);
    if |Waiting(r)| < CAPACITY {
      assert Length(r') == Length(r) + 1;
      assert Place(r', Length(r)) == r.head;
      forall i | 0 <= i < Length(r)
        ensures Place(r', i) == Place(r, i) != r.head
      {
      }
      assert Waiting(r') == Waiting(r) + [c];
    }
  }

  /** Advancing the tail takes the oldest character. */
  lemma {:induction false} PopIsTail(r: Ring)
    requires RingOk(r) && r.head != r.tail
    ensures var r' := r.(tail := Successor(r.tail));
            && RingOk(r') && Waiting(r) != []
            && Waiting(r)[0] == r.cells[r.tail] && Waiting(r') == Waiting(r)[1..]
  {
  }

  // ---------- The driver's own form ----------

  class Driver {
    const buffer: array<char>
    var head: nat
    var tail: nat

    ghost predicate Valid()
      reads this
    {
      buffer.Length == BUFFER_SIZE && head < BUFFER_SIZE && tail < BUFFER_SIZE
    }

    function Value(): (r: Ring)
      requires Valid()
      reads this, buffer
      ensures RingOk(r)
    {
      Ring(buffer[..], head, tail)
    }

    constructor ()
      ensures Valid() && fresh(buffer) && Waiting(Value()) == []
    {
      buffer := new char[BUFFER_SIZE](_ => '\0');
      head, tail := 0, 0;
    }

    method BufferPush(c: char)
      requires Valid()
      modifies this`head, buffer
      ensures Valid() && Value() == PushRing(old(Value()), c)
      ensures Waiting(Value()) ==
              if |old(Waiting(Value()))| < 127 then old(Waiting(Value())) + [c] else old(Waiting(Value()))
    {
      PushIsAppend(Value(), c);
      var next := Successor(head);
      if next == tail {
        return;
      }
      buffer[head] := c;
      head := next;
    }

    method HasChar() returns (b: bool)
      requires Valid()
      ensures b <==> Waiting(Value()) != []
    {
      b := head != tail;
    }

    /** keyboard_getchar, uninterrupted. */
    method GetChar() returns (c: char)
      requires Valid()
      modifies this`tail
      ensures Valid()
      ensures var q := old(Waiting(Value()));
              if q == [] then c == '\0' && Value() == old(Value())
              else c == q[0] && Waiting(Value()) == q[1..]
    {
      if head == tail {
        return '\0';
      }
      PopIsTail(Value());
      c := buffer[tail];
      tail := Successor(tail);
    }
  }

  // ---------- The reader, interrupted between any two accesses ----------

  /** Where keyboard_getchar stands: what it has read into registers so far. */
  datatype Reader =
    | Idle
    | ReadHead(h: nat)
    | NotEmpty
    | ReadCell(c: char)
    | ReadTail(c: char, t: nat)

  /** accepted: characters the handler stored; delivered: characters handed to callers. */
  datatype State = State(ring: Ring, reader: Reader, accepted: seq<char>, delivered: seq<char>)

  datatype Event = Key(c: char) | ReaderStep

  /** One access of the reader, or one whole run of the handler. */
  function Step(s: State, e: Event): State
    requires RingOk(s.ring)
  {
    match e
    case Key(c) =>
      s.(ring := PushRing(s.ring, c),
         accepted := if Successor(s.ring.head) == s.ring.tail then s.accepted else s.accepted + [c])
    case ReaderStep =>
      match s.reader
      case Idle => s.(reader := ReadHead(s.ring.head))
      case ReadHead(h) => s.(reader := if h == s.ring.tail then Idle else NotEmpty)
      case NotEmpty => s.(reader := ReadCell(s.ring.cells[s.ring.tail]))
      case ReadCell(c) => s.(reader := ReadTail(c, s.ring.tail))
      case ReadTail(c, t) =>
        s.(ring := s.ring.(tail := Successor(t)), reader := Idle, delivered := s.delivered + [c])
  }

  /** The reader's registers agree with the ring, whatever the handler did meanwhile. */
  ghost predicate ReaderOk(r: Ring, reader: Reader)
    requires RingOk(r)
  {
    match reader
    case Idle => true
    case ReadHead(h) => h != r.tail ==> Waiting(r) != []
    case NotEmpty => Waiting(r) != []
    case ReadCell(c) => Waiting(r) != [] && c == Waiting(r)[0]
    case ReadTail(c, t) => Waiting(r) != [] && c == Waiting(r)[0] && t == r.tail
  }

  /** Nothing is lost, doubled, reordered or overwritten: what was accepted is what was delivered
      followed by what waits. */
  ghost predicate Fifo(s: State) {
    RingOk(s.ring) && ReaderOk(s.ring, s.reader) && s.accepted == s.delivered + Waiting(s.ring)
  }

  function Start(): State {
    State(Ring(seq(BUFFER_SIZE, _ => '\0'), 0, 0), Idle, [], [])
  }

  lemma {:induction false} StartIsFifo()
    ensures Fifo(Start())
  {
  }

  /** A key press arriving at any point of the reader appends exactly its character, unless 127 are
      waiting, in which case it alone is dropped. */
  lemma {:induction false} KeyStep(s: State, c: char)
    requires Fifo(s)
    ensures var s' := Step(s, Key(c));
            && Fifo(s') && s'.delivered == s.delivered && s'.reader == s.reader
            && s'.accepted == (if |Waiting(s.ring)| < 127 then s.accepted + [c] else s.accepted)
            && Waiting(s'.ring) == (if |Waiting(s.ring)| < 127 then Waiting(s.ring) + [c] else Waiting(s.ring))
  {
    PushIsAppend(s.ring, c);
    hide Waiting;
    assert Successor(s.ring.head) == s.ring.tail <==> Length(s.ring) == CAPACITY;
    var q, q' := Waiting(s.ring), Waiting(PushRing(s.ring, c));
    assert q != [] ==> q' != [] && q'[0] == q[0];
    assert s.delivered + (q + [c]) == s.delivered + q + [c];
  }

  /** A reader access keeps the queue, except the last one, which delivers its front. */
  lemma {:induction false} ReaderAccess(s: State)
    requires Fifo(s)
    ensures var s' := Step(s, ReaderStep);
            && Fifo(s') && s'.accepted == s.accepted
            && (s.reader.ReadTail? ==> Waiting(s.ring) != [] && s'.delivered == s.delivered + [Waiting(s.ring)[0]])
            && (!s.reader.ReadTail? ==> s'.delivered == s.delivered && s'.ring == s.ring)
  {
    if s.ring.head != s.ring.tail {
      PopIsTail(s.ring);
      var q := Waiting(s.ring);
      assert s.delivered + q == s.delivered + [q[0]] + q[1..];
    }
  }

  ghost predicate Reaches(s: State, events: seq<Event>, t: State)
    decreases |events|
  {
    RingOk(s.ring) && if events == [] then t == s else Reaches(Step(s, events[0]), events[1..], t)
  }

  /** Over every interleaving of key presses and reader accesses the characters delivered are the
      first of those accepted, in order, and the rest are still waiting, at most 127 of them. */
  lemma {:induction false} EveryInterleaving(s: State, events: seq<Event>, t: State)
    requires Fifo(s) && Reaches(s, events, t)
    ensures Fifo(t) && s.delivered <= t.delivered <= t.accepted && s.accepted <= t.accepted
    ensures |t.accepted| - |t.delivered| <= 127
    decreases |events|
  {
    if events != [] {
      match events[0] {
        case Key(c) => KeyStep(s, c);
        case ReaderStep => ReaderAccess(s);
      }
      hide Fifo, Step;
      EveryInterleaving(Step(s, events[0]), events[1..], t);
    }
  }

  /** From power-on: over every interleaving, what callers were handed is the beginning of what the
      handler accepted, and at most 127 accepted characters still wait. */
  lemma {:induction false} FromPowerOn(events: seq<Event>, t: State)
    requires Reaches(Start(), events, t)
    ensures Fifo(t) && t.accepted == t.delivered + Waiting(t.ring) && |Waiting(t.ring)| <= 127
  {
    hide Reaches, Start;
    StartIsFifo();
    EveryInterleaving(Start(), events, t);
  }

  /** However many keys arrive between the reader's two looks, keyboard_getchar reports an empty
      buffer exactly if the buffer was empty when it read the head. */
  lemma {:induction false} EmptyWhenLooked(s: State, keys: seq<Event>, t: State)
    requires Fifo(s) && s.reader.Idle?
    requires forall i :: 0 <= i < |keys| ==> keys[i].Key?
    requires Reaches(Step(s, ReaderStep), keys, t)
    ensures RingOk(t.ring) && (Step(t, ReaderStep).reader.Idle? <==> Waiting(s.ring) == [])
  {
    KeysLeaveReader(Step(s, ReaderStep), keys, t);
  }

  lemma {:induction false} KeysLeaveReader(s: State, keys: seq<Event>, t: State)
    requires RingOk(s.ring) && Reaches(s, keys, t)
    requires forall i :: 0 <= i < |keys| ==> keys[i].Key?
    ensures RingOk(t.ring) && t.reader == s.reader && t.ring.tail == s.ring.tail
    decreases |keys|
  {
    if keys != [] {
      KeysLeaveReader(Step(s, keys[0]), keys[1..], t);
    }
  }
}
