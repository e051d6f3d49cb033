/**
 `Entry::write` and `Entry::read` of `crates/trace/src/store.rs` interleaved store by load on one
 slot of the ring: a reader never returns a mixture of two writes.
 */
module TornRead {
  import opened Arithmetic
  import opened TraceOrder
  import opened TraceStore
  import opened Wrappers

  /** One complete write: its sequence number and body. */
  datatype Write = Write(sequence: nat, body: Body)

  /** The writer of this slot, after `stores` of its five stores. */
  datatype Writer = Idle | Writing(sequence: nat, body: Body, stores: nat)

  /** The reader, after `loads` of its five loads, with what it loaded. */
  datatype Reader =
    | Waiting
    | Reading(loads: nat, commit: nat, tUs: nat, word0: nat, word1: nat)
    | Returned(result: Option<Record>)

  /**
   One slot `index` of a ring of `size` entries. `next` is the shared sequence counter; `last` is
   the newest complete write to the slot, `history` all of them, `origin` the one whose commit
   word the reader loaded first and `started` the records begun since.
   */
  datatype State = State(
    size: nat, index: nat, slot: Entry, next: nat, writer: Writer, reader: Reader,
    last: Option<Write>, history: set<Write>, origin: Write, started: nat)

  datatype Action = Begin(body: Body) | StoreNext | LoadNext | ReadAgain

  /** Writers do not overlap, and the counter has not wrapped. */
  ghost predicate Enabled(s: State, a: Action) {
    match a
    case Begin(_) => s.writer.Idle? && s.next < U32
    case StoreNext => s.writer.Writing?
    case LoadNext => !s.reader.Returned?
    case ReadAgain => s.reader.Returned?
  }

  function Stored(slot: Entry, w: Writer): Entry
    requires w.Writing?
  {
    if w.stores == 0 then slot.(commit := 0)
    else if w.stores == 1 then slot.(tUs := w.body.tUs)
    else if w.stores == 2 then slot.(words := (w.body.words.0, slot.words.1))
    else if w.stores == 3 then slot.(words := (slot.words.0, w.body.words.1))
    else slot.(commit := Commit(w.body.kind, w.sequence))
  }

  function Begun(s: State, body: Body): State
    requires s.size > 0
  {
    var counted := s.(next := s.next + 1, started := if s.reader.Reading? then s.started + 1 else s.started);
    if Rem(s.next, s.size) == s.index then counted.(writer := Writing(s.next, body, 0)) else counted
  }

  function WriterStep(s: State): State
    requires s.writer.Writing?
  {
    var stored := s.(slot := Stored(s.slot, s.writer));
    if s.writer.stores < 4 then stored.(writer := s.writer.(stores := s.writer.stores + 1))
    else
      var write := Write(s.writer.sequence, s.writer.body);
      stored.(writer := Idle, last := Some(write), history := s.history + {write})
  }

  function ReaderStep(s: State): State
    requires !s.reader.Returned?
  {
    match s.reader
    case Waiting =>
      if s.slot.commit == 0 then s.(reader := Returned(None))
      else s.(reader := Reading(1, s.slot.commit, 0, 0, 0), started := 0,
              origin := if s.last.Some? then s.last.value else s.origin)
    case Reading(loads, commit, tUs, word0, word1) =>
      if loads == 1 then s.(reader := s.reader.(loads := 2, tUs := s.slot.tUs))
      else if loads == 2 then s.(reader := s.reader.(loads := 3, word0 := s.slot.words.0))
      else if loads == 3 then s.(reader := s.reader.(loads := 4, word1 := s.slot.words.1))
      else s.(reader := Returned(
        if s.slot.commit == commit
        then Some(Record(commit % 0x1_0000, commit / 0x1_0000, tUs, (word0, word1)))
        else None))
  }

  function Next(s: State, a: Action): State
    requires s.size > 0 && Enabled(s, a)
  {
    match a
    case Begin(body) => Begun(s, body)
    case StoreNext => WriterStep(s)
    case LoadNext => ReaderStep(s)
    case ReadAgain => s.(reader := Waiting)
  }

  /** A fresh ring: every slot empty, nobody reading. */
  function Start(size: nat, index: nat): State {
    State(size, index, Entry(0, 0, (0, 0)), 0, Idle, Waiting, None, {}, Write(0, Body(0, 0, (0, 0))), 0)
  }

  /** `states` is a run: each follows from the one before by an enabled action. */
  ghost predicate IsRun(states: seq<State>, actions: seq<Action>) {
    && |states| == |actions| + 1
    && states[0].size > 0 && states[0].index < states[0].size
    && states[0] == Start(states[0].size, states[0].index)
    && forall i :: 0 <= i < |actions| ==>
         states[i].size > 0 && Enabled(states[i], actions[i]) && states[i + 1] == Next(states[i], actions[i])
  }

  // ------------------------------------------------------ what every step keeps

  /** The slot holds the last complete write, or nothing before the first. */
  ghost predicate HoldsLast(s: State) {
    if s.last.None? then s.slot.commit == 0 else s.slot == Written(s.last.value.body, s.last.value.sequence)
  }

  ghost predicate WriterInv(s: State)
    requires s.size > 0
  {
    match s.writer
    case Idle => HoldsLast(s) && (s.last.Some? ==> s.next <= s.last.value.sequence + s.size)
    case Writing(sequence, body, stores) =>
      && sequence + 1 == s.next && stores <= 4 && Rem(sequence, s.size) == s.index
      && (s.last.Some? ==> s.next <= s.last.value.sequence + s.size + 1)
      && (stores == 0 ==> HoldsLast(s))
      && (stores >= 1 ==> s.slot.commit == 0)
      && (stores >= 2 ==> s.slot.tUs == body.tUs)
      && (stores >= 3 ==> s.slot.words.0 == body.words.0)
      && (stores >= 4 ==> s.slot.words.1 == body.words.1)
  }

  ghost predicate LastInv(s: State)
    requires s.size > 0
  {
    s.last.Some? ==>
      && s.last.value in s.history && Rem(s.last.value.sequence, s.size) == s.index
      && s.last.value.sequence < s.next
      && (s.writer.Writing? ==> s.last.value.sequence < s.writer.sequence)
  }

  /** A write has begun to overwrite what the reader started from. */
  ghost predicate Overwritten(s: State) {
    s.last.Some? && (s.last.value.sequence > s.origin.sequence || (s.writer.Writing? && s.writer.stores >= 1))
  }

  ghost predicate ReaderInv(s: State) {
    match s.reader
    case Waiting => true
    case Reading(loads, commit, tUs, word0, word1) =>
      && 1 <= loads <= 4 && commit == Commit(s.origin.body.kind, s.origin.sequence) && s.origin in s.history
      && s.next <= s.origin.sequence + s.size + 1 + s.started
      && s.last.Some? && (s.last.value.sequence > s.origin.sequence || s.last.value == s.origin)
      && (!Overwritten(s) ==>
            && (loads >= 2 ==> tUs == s.origin.body.tUs)
            && (loads >= 3 ==> word0 == s.origin.body.words.0)
            && (loads >= 4 ==> word1 == s.origin.body.words.1))
    case Returned(result) =>
      result.Some? && s.started < TAG_PERIOD - s.size ==>
        s.origin in s.history && result.value == RecordOf(s.origin.body, s.origin.sequence)
  }

  ghost predicate Inv(s: State) {
    s.size > 0 && s.index < s.size && WriterInv(s) && LastInv(s) && ReaderInv(s)
  }

  lemma BeginKeeps(s: State, body: Body)
    requires Inv(s) && Enabled(s, Begin(body))
    ensures Inv(Begun(s, body))
  {
    if s.last.Some? && s.next == s.last.value.sequence + s.size {
      assert Rem(s.next, s.size) == Rem(s.last.value.sequence, s.size);
    }
  }

  lemma StoreKeeps(s: State)
    requires Inv(s) && s.writer.Writing?
    ensures Inv(WriterStep(s))
  {
  }

  lemma LoadKeeps(s: State)
    requires Inv(s) && !s.reader.Returned?
    ensures Inv(ReaderStep(s))
  {
    if s.reader.Reading? && s.reader.loads == 4 {
      LastLoadKeeps(s);
    }
  }

  /** A matching second load of the commit word means the slot was not touched in between. */
  lemma LastLoadKeeps(s: State)
    requires Inv(s) && s.reader.Reading? && s.reader.loads == 4
    ensures ReaderInv(ReaderStep(s))
  {
    if s.slot.commit == s.reader.commit {
      CommitParts(s.origin.body.kind, s.origin.sequence);
      if Overwritten(s) {
        SameTagIsFar(s.origin.body.kind, s.origin.sequence, s.last.value.body.kind, s.last.value.sequence);
      }
    }
  }

  /** Equal commit words of different writes are at least a tag period apart. */
  lemma SameTagIsFar(kind: nat, sequence: nat, other: nat, later: nat)
    requires sequence < later && Commit(kind, sequence) == Commit(other, later)
    ensures later - sequence >= TAG_PERIOD
  {
    CommitParts(kind, sequence);
    CommitParts(other, later);
  }

  lemma {:induction false} RunKeeps(states: seq<State>, actions: seq<Action>, i: nat)
    requires IsRun(states, actions) && i < |states|
    ensures Inv(states[i])
  {
    if i > 0 {
      RunKeeps(states, actions, i - 1);
      var s, a := states[i - 1], actions[i - 1];
      match a
      case Begin(body) => BeginKeeps(s, body);
      case StoreNext => StoreKeeps(s);
      case LoadNext => LoadKeeps(s);
      case ReadAgain =>
    }
  }

  /** In every interleaving, a read during which fewer than the tag period less the ring size
      records began returns nothing or exactly the body of one complete write. */
  lemma ReadsAreWhole(states: seq<State>, actions: seq<Action>, i: nat)
    requires IsRun(states, actions) && i < |states|
    requires states[i].reader.Returned? && states[i].reader.result.Some?
    requires states[i].started < TAG_PERIOD - states[i].size
    ensures exists write :: write in states[i].history
                            && states[i].reader.result.value == RecordOf(write.body, write.sequence)
  {
    RunKeeps(states, actions, i);
    assert states[i].origin in states[i].history;
  }

  /** In every interleaving, a reset leaves the slot holding nothing or one complete write. */
  lemma ResetIsWhole(states: seq<State>, actions: seq<Action>, i: nat)
    requires IsRun(states, actions) && i < |states|
    ensures Read(states[i].slot).None?
            || exists write :: write in states[i].history &&
                 Read(states[i].slot) == Some(RecordOf(write.body, write.sequence))
  {
    RunKeeps(states, actions, i);
    var s := states[i];
    if s.slot.commit != 0 {
      ReadableWritten(s.last.value.body, s.last.value.sequence);
      assert s.last.value in s.history;
    }
  }

  function Prefix(slot: Entry, body: Body, sequence: nat, stores: nat): Entry
    requires stores <= 5
  {
    if stores == 0 then slot
    else Stored(Prefix(slot, body, sequence, stores - 1), Writing(sequence, body, stores - 1))
  }

  /** A reset after any prefix of a write's stores: the old entry, nothing, or the new entry. */
  lemma ResetMidWrite(slot: Entry, body: Body, sequence: nat, stores: nat)
    requires stores <= 5
    ensures Read(Prefix(slot, body, sequence, stores))
            == if stores == 0 then Read(slot)
               else if stores < 5 then None
               else Some(RecordOf(body, sequence))
  {
    var one := slot.(commit := 0);
    var two := one.(tUs := body.tUs);
    var three := two.(words := (body.words.0, slot.words.1));
    var four := three.(words := body.words);
    assert Prefix(slot, body, sequence, 1) == one;
    assert Prefix(slot, body, sequence, 2) == two;
    assert Prefix(slot, body, sequence, 3) == three;
    assert Prefix(slot, body, sequence, 4) == four;
    ReadableWritten(body, sequence);
    assert Prefix(slot, body, sequence, 5) == Written(body, sequence);
  }
}
