/**
 The post-mortem record across boots (`Record` in `hil/agent/src/postmortem.rs`): a ring of the last
 checkpoints and one fault. Each boot is told exactly what the boot before it left, once.
 */
module BootRecord {
  import opened Wrappers
  import opened CheckpointRing
  import opened PostMortem
  import Bytes
  import Crc32c
  import Utf8

  /** "OPMR", little-endian. */
  const MAGIC: Word := 0x524D_504F
  const LAYOUT: Word := 2

  type U32 = n: nat | n < 0x1_0000_0000

  datatype Header = Header(magic: Word, layout: Word, bootCount: Word, head: U32, len: U32)

  datatype Contents = Contents(header: Header, headerCrc: Word, checkpoints: seq<RawCheckpoint>, fault: RawFault) {
    /** The sizes of its arrays; every such value is a record. */
    predicate Shaped() {
      |checkpoints| == CAPACITY && fault.Shaped()
    }
  }

  datatype Previous = Previous(bootCount: Word, checkpoints: seq<Checkpoint>, fault: Option<Fault>)

  datatype Entry =
    | Passed(name: Text, arg: Word, uptimeMs: Word, hart: bv8)
    | Hung(hang: HangFault)
    | Panicked(file: Text, line: Word, message: Text)

  // ------------------------------------------------------ the header

  /** The word of value `n`. */
  function WordOf(n: U32): Word {
    Crc32c.FromLe(Bytes.Le32(n))
  }

  lemma WordOfDiffers(m: U32, n: U32)
    ensures m != n ==> WordOf(m) != WordOf(n)
  {
    Crc32c.LeInverse(Bytes.Le32(m));
    Crc32c.LeInverse(Bytes.Le32(n));
    if Bytes.Le32(m) == Bytes.Le32(n) {
      Bytes.Le32Injective(m, n);
    }
  }

  /** The words under the header's CRC. */
  function HeaderWords(h: Header): (ws: seq<Word>)
    ensures |ws| == 5
  {
    Listed(h, WordOf)
  }

  function Listed(h: Header, word: U32 -> Word): (ws: seq<Word>)
    ensures |ws| == 5
  {
    [h.magic, h.layout, h.bootCount, word(h.head), word(h.len)]
  }

  function HeaderDigest(h: Header): Word {
    Crc32c.Checksum(Words(HeaderWords(h)))
  }

  predicate HeaderValid(h: Header, crc: Word) {
    h.magic == MAGIC && h.layout == LAYOUT && crc == HeaderDigest(h) && h.head < CAPACITY && h.len <= CAPACITY
  }

  function NextCount(r: Contents): Word {
    if HeaderValid(r.header, r.headerCrc) then r.header.bootCount + 1 else 1
  }

  /** The count after one more checkpoint. The 32-bit sum wraps in a record that was never begun. */
  function Grown(len: U32): U32 {
    var sum := if len == 0xFFFF_FFFF then 0 else len + 1;
    if sum < CAPACITY then sum else CAPACITY
  }

  /** The header after one more checkpoint. */
  function Advance(h: Header): Header {
    h.(head := Slot(Slot(h.head) + 1), len := Grown(h.len))
  }

  // ------------------------------------------------------ operations

  function DecodeMark(c: RawCheckpoint): Option<Checkpoint> {
    c.Decode()
  }

  /** What can be told of the boot before, from a valid header. */
  function Left(r: Contents): Option<Previous>
    requires r.Shaped()
  {
    if !HeaderValid(r.header, r.headerCrc) then None
    else
      var first := Oldest(r.header.head, r.header.len);
      Some(Previous(r.header.bootCount, Read(DecodeMark, r.checkpoints, first, r.header.len), r.fault.Decode()))
  }

  function EmptyRing(n: nat): (ring: seq<RawCheckpoint>)
    ensures |ring| == n
  {
    if n == 0 then [] else EmptyRing(n - 1) + [EMPTY_CHECKPOINT]
  }

  /** The record a boot starts with. */
  function Begun(r: Contents): (after: Contents)
    ensures after.Shaped()
  {
    Fresh(NextCount(r))
  }

  function Fresh(count: Word): (r: Contents)
    ensures r.Shaped()
  {
    NoFaultDecodes();
    var header := Header(MAGIC, LAYOUT, count, 0, 0);
    Contents(header, HeaderDigest(header), EmptyRing(CAPACITY), NO_FAULT.Seal())
  }

  /** An entry the source's array types allow. */
  predicate Fits(e: Entry) {
    e.Hung? ==> |e.hang.samples| == 16
  }

  function Marked(r: Contents, raw: RawCheckpoint): (after: Contents)
    requires r.Shaped()
    ensures after.Shaped()
  {
    var header := Advance(r.header);
    Contents(header, HeaderDigest(header), r.checkpoints[Slot(r.header.head) := raw], r.fault)
  }

  function Recorded(r: Contents, e: Entry): (after: Contents)
    requires r.Shaped() && Fits(e)
    ensures after.Shaped()
  {
    match e
    case Passed(name, arg, uptimeMs, hart) => Marked(r, RawMark(name, arg, uptimeMs, hart))
    case Hung(hang) => r.(fault := RawHang(hang))
    case Panicked(file, line, message) => r.(fault := RawPanic(file, line, message))
  }

  function RecordAll(r: Contents, entries: seq<Entry>): (after: Contents)
    requires r.Shaped() && forall e :: e in entries ==> Fits(e)
    ensures after.Shaped()
  {
    if entries == [] then r else Recorded(RecordAll(r, entries[..|entries| - 1]), entries[|entries| - 1])
  }

  // ------------------------------------------------------ what a boot leaves

  /** The checkpoints among `entries`, as they are kept. */
  function Marks(entries: seq<Entry>): seq<Checkpoint> {
    if entries == [] then []
    else
      var e := entries[|entries| - 1];
      Marks(entries[..|entries| - 1]) + if e.Passed? then [Mark(e.name, e.arg, e.uptimeMs, e.hart)] else []
  }

  /** The last fault among `entries`. */
  function LastFault(entries: seq<Entry>): Option<Fault> {
    if entries == [] then None
    else
      var e := entries[|entries| - 1];
      match e
      case Passed(_, _, _, _) => LastFault(entries[..|entries| - 1])
      case Hung(hang) => Some(Hang(hang))
      case Panicked(file, line, message) =>
        Some(Panic(PanicFault(Kept(file, FILE_BYTES), line, Kept(message, MESSAGE_BYTES))))
  }

  /** A valid header over `n` checkpoints. */
  ghost predicate HeaderHolds(h: Header, crc: Word, count: Word, n: nat) {
    HeaderValid(h, crc) && h.bootCount == count && h.head == n % CAPACITY && h.len == Filled(n)
  }

  ghost predicate FaultHolds(f: RawFault, fault: Option<Fault>) {
    f.Shaped() && f.Decode() == fault
  }

  /** `r` holds exactly the last of `marks` and `fault`. */
  ghost predicate RecordHolds(r: Contents, count: Word, marks: seq<Checkpoint>, fault: Option<Fault>) {
    && HeaderHolds(r.header, r.headerCrc, count, |marks|)
    && Holds(DecodeMark, r.checkpoints, marks)
    && FaultHolds(r.fault, fault)
  }

  lemma HeaderStarts(count: Word)
    ensures var h := Header(MAGIC, LAYOUT, count, 0, 0);
            HeaderHolds(h, HeaderDigest(h), count, 0)
  {
  }

  lemma HeaderAdvances(h: Header, crc: Word, count: Word, n: nat)
    requires HeaderHolds(h, crc, count, n)
    ensures HeaderHolds(Advance(h), HeaderDigest(Advance(h)), count, n + 1)
  {
    SlotOfHead(n, h.head);
    HeaderSealed(Advance(h), count, n + 1);
  }

  lemma HeaderSealed(h: Header, count: Word, n: nat)
    requires h == Header(MAGIC, LAYOUT, count, n % CAPACITY, Filled(n))
    ensures HeaderHolds(h, HeaderDigest(h), count, n)
  {
  }

  lemma BegunHolds(r: Contents)
    ensures RecordHolds(Begun(r), NextCount(r), [], None)
  {
    HeaderStarts(NextCount(r));
    NoFaultDecodes();
  }

  lemma MarkHolds(r: Contents, count: Word, marks: seq<Checkpoint>, fault: Option<Fault>, raw: RawCheckpoint,
                  mark: Checkpoint)
    requires RecordHolds(r, count, marks, fault) && DecodeMark(raw) == Some(mark)
    ensures r.Shaped() && RecordHolds(Marked(r, raw), count, marks + [mark], fault)
  {
    HeaderAdvances(r.header, r.headerCrc, count, |marks|);
    SlotOfHead(|marks|, r.header.head);
    Written(DecodeMark, r.checkpoints, marks, Slot(r.header.head), raw, mark);
    assert |marks + [mark]| == |marks| + 1;
  }

  lemma {:induction false} RecordAllHolds(r: Contents, entries: seq<Entry>)
    requires forall e :: e in entries ==> Fits(e)
    ensures RecordHolds(RecordAll(Begun(r), entries), NextCount(r), Marks(entries), LastFault(entries))
  {
    if entries == [] {
      BegunHolds(r);
    } else {
      var front, e := entries[..|entries| - 1], entries[|entries| - 1];
      RecordAllHolds(r, front);
      EntryHolds(RecordAll(Begun(r), front), NextCount(r), Marks(front), LastFault(front), e);
    }
  }

  lemma EntryHolds(r: Contents, count: Word, marks: seq<Checkpoint>, fault: Option<Fault>, e: Entry)
    requires RecordHolds(r, count, marks, fault) && Fits(e)
    ensures r.Shaped()
    ensures match e
            case Passed(name, arg, uptimeMs, hart) =>
              RecordHolds(Recorded(r, e), count, marks + [Mark(name, arg, uptimeMs, hart)], fault)
            case Hung(hang) => RecordHolds(Recorded(r, e), count, marks, Some(Hang(hang)))
            case Panicked(file, line, message) =>
              RecordHolds(Recorded(r, e), count, marks,
                          Some(Panic(PanicFault(Kept(file, FILE_BYTES), line, Kept(message, MESSAGE_BYTES)))))
  {
    match e
    case Passed(name, arg, uptimeMs, hart) =>
      CheckpointRoundTrip(name, arg, uptimeMs, hart);
      MarkHolds(r, count, marks, fault, RawMark(name, arg, uptimeMs, hart), Mark(name, arg, uptimeMs, hart));
    case Hung(hang) => HangRoundTrip(hang);
    case Panicked(file, line, message) => PanicRoundTrip(file, line, message);
  }

  lemma HeldIsLeft(r: Contents, count: Word, marks: seq<Checkpoint>, fault: Option<Fault>)
    requires RecordHolds(r, count, marks, fault)
    ensures r.Shaped() && Left(r) == Some(Previous(count, Last(marks, CAPACITY), fault))
  {
    ReadsLast(DecodeMark, r.checkpoints, marks, r.header.head, r.header.len);
    LeftIs(r, count, |marks|, Last(marks, CAPACITY), fault);
  }

  lemma LeftIs(r: Contents, count: Word, n: nat, kept: seq<Checkpoint>, fault: Option<Fault>)
    requires HeaderHolds(r.header, r.headerCrc, count, n) && |r.checkpoints| == CAPACITY && FaultHolds(r.fault, fault)
    requires Read(DecodeMark, r.checkpoints, Oldest(r.header.head, r.header.len), r.header.len) == kept
    ensures Left(r) == Some(Previous(count, kept, fault))
  {
  }

  /** Whatever memory held before, a boot leaves the last checkpoints it passed, oldest first, and its
      last fault. */
  lemma BootLeaves(r: Contents, entries: seq<Entry>)
    requires forall e :: e in entries ==> Fits(e)
    ensures Left(RecordAll(Begun(r), entries)) ==
            Some(Previous(NextCount(r), Last(Marks(entries), CAPACITY), LastFault(entries)))
  {
    RecordAllHolds(r, entries);
    HeldIsLeft(RecordAll(Begun(r), entries), NextCount(r), Marks(entries), LastFault(entries));
  }

  /** Whatever happened to the fault, checkpoints whose memory was damaged are dropped and the others
      are still reported, in order. */
  lemma DamageDropsOnlyItself(r: Contents, count: Word, marks: seq<Checkpoint>, fault: Option<Fault>, damaged: Contents)
    requires RecordHolds(r, count, marks, fault)
    requires damaged.header == r.header && damaged.headerCrc == r.headerCrc && damaged.fault.Shaped()
    requires Damaged(DecodeMark, r.checkpoints, damaged.checkpoints)
    ensures damaged.Shaped()
    ensures Left(damaged) == Some(Previous(count, Survivors(DecodeMark, damaged.checkpoints, marks),
                                           damaged.fault.Decode()))
  {
    ReadsRest(DecodeMark, r.checkpoints, damaged.checkpoints, marks, r.header.head, r.header.len);
    LeftIs(damaged, count, |marks|, Survivors(DecodeMark, damaged.checkpoints, marks), damaged.fault.Decode());
  }

  lemma HeaderDamagedAt(h: Header, crc: Word, damaged: Header, w: nat, x: Word)
    requires crc == HeaderDigest(h) && w < 5
    requires HeaderWords(damaged) == HeaderWords(h)[w := x]
    ensures x != HeaderWords(h)[w] ==> !HeaderValid(damaged, crc)
  {
    var ws := HeaderWords(h);
    if x != ws[w] {
      WordChangesChecksum([], ws, w, x, []);
      assert [] + Words(ws) + [] == Words(ws) && [] + Words(ws[w := x]) + [] == Words(ws[w := x]);
    }
  }

  lemma HeaderHit(h: Header, word: U32 -> Word, x: Word, n: U32, damaged: Header) returns (w: nat)
    requires (n != h.head ==> word(n) != word(h.head)) && (n != h.len ==> word(n) != word(h.len))
    requires || (x != h.magic && damaged == h.(magic := x))
             || (x != h.layout && damaged == h.(layout := x))
             || (x != h.bootCount && damaged == h.(bootCount := x))
             || (n != h.head && damaged == h.(head := n))
             || (n != h.len && damaged == h.(len := n))
    ensures w < 5
    ensures var z := if w < 3 then x else word(n);
            Listed(damaged, word) == Listed(h, word)[w := z] && z != Listed(h, word)[w]
  {
    w := if damaged.magic != h.magic then 0 else if damaged.layout != h.layout then 1
         else if damaged.bootCount != h.bootCount then 2 else if damaged.head != h.head then 3 else 4;
  }

  /** Nothing is told of a record whose sealed header has another value in one field, and the boots are
      counted from one again. */
  lemma DamagedHeaderDropped(r: Contents, x: Word, n: U32, damaged: Header)
    requires r.Shaped() && r.headerCrc == HeaderDigest(r.header)
    requires || (x != r.header.magic && damaged == r.header.(magic := x))
             || (x != r.header.layout && damaged == r.header.(layout := x))
             || (x != r.header.bootCount && damaged == r.header.(bootCount := x))
             || (n != r.header.head && damaged == r.header.(head := n))
             || (n != r.header.len && damaged == r.header.(len := n))
    ensures Untold(r, damaged, r.headerCrc)
  {
    WordOfDiffers(n, r.header.head);
    WordOfDiffers(n, r.header.len);
    var w := HeaderHit(r.header, WordOf, x, n, damaged);
    UntoldAt(r, damaged, w, if w < 3 then x else WordOf(n));
  }

  lemma DamagedHeaderCrcDropped(r: Contents, crc: Word)
    requires r.Shaped() && r.headerCrc == HeaderDigest(r.header) && crc != r.headerCrc
    ensures Untold(r, r.header, crc)
  {
    UntoldUnless(r, r.header, crc);
  }

  lemma UntoldUnless(r: Contents, header: Header, crc: Word)
    requires r.Shaped()
    ensures HeaderValid(header, crc) || Untold(r, header, crc)
  {
  }

  lemma UntoldAt(r: Contents, damaged: Header, w: nat, x: Word)
    requires r.Shaped() && r.headerCrc == HeaderDigest(r.header) && w < 5
    requires HeaderWords(damaged) == HeaderWords(r.header)[w := x]
    ensures x != HeaderWords(r.header)[w] ==> Untold(r, damaged, r.headerCrc)
  {
    HeaderDamagedAt(r.header, r.headerCrc, damaged, w, x);
    UntoldUnless(r, damaged, r.headerCrc);
  }

  /** Nothing is told of `r` under that header, and the next boot is the first. */
  predicate Untold(r: Contents, header: Header, crc: Word) {
    var damaged := r.(header := header, headerCrc := crc);
    damaged.Shaped() && Left(damaged) == None && Begun(damaged).header.bootCount == 1
  }

  /** A record of another program or layout, or with a position or count outside the ring, tells nothing. */
  lemma ForeignRecordDropped(r: Contents)
    requires r.Shaped()
    ensures Left(r).Some? <==>
              r.header.magic == 0x524D_504F && r.header.layout == 2 && r.headerCrc == HeaderDigest(r.header) &&
              r.header.head < 32 && r.header.len <= 32
    ensures Begun(r).header.bootCount == match Left(r) case Some(p) => p.bootCount + 1 case None => 1
    ensures Left(r).Some? ==> Left(r).value.bootCount == r.header.bootCount
  {
  }

  // ------------------------------------------------------ sequences of boots

  ghost predicate BootsFit(boots: seq<seq<Entry>>) {
    forall i :: 0 <= i < |boots| ==> forall e :: e in boots[i] ==> Fits(e)
  }

  /** The record after `boots`. */
  ghost function After(r: Contents, boots: seq<seq<Entry>>): (after: Contents)
    requires r.Shaped() && BootsFit(boots)
    ensures after.Shaped()
  {
    if boots == [] then r
    else RecordAll(Begun(After(r, boots[..|boots| - 1])), boots[|boots| - 1])
  }

  /** `count` advanced by `n` boots, wrapping. */
  function Advanced(count: Word, n: nat): Word {
    if n == 0 then count else Advanced(count, n - 1) + 1
  }

  /** After any boots, the next one is told of the last alone, and how many there were. */
  lemma {:induction false} EachBootToldOnce(r: Contents, boots: seq<seq<Entry>>)
    requires r.Shaped() && BootsFit(boots) && boots != []
    ensures var last := boots[|boots| - 1];
            Left(After(r, boots)) ==
            Some(Previous(Advanced(NextCount(r), |boots| - 1), Last(Marks(last), CAPACITY), LastFault(last)))
  {
    var front, last := boots[..|boots| - 1], boots[|boots| - 1];
    BootLeaves(After(r, front), last);
    if front != [] {
      EachBootToldOnce(r, front);
    }
  }

  // ------------------------------------------------------ the record in place

  class Record {
    var header: Header
    var headerCrc: Word
    var checkpoints: seq<RawCheckpoint>
    var fault: RawFault

    function Value(): Contents
      reads this
    {
      Contents(header, headerCrc, checkpoints, fault)
    }

    /** Whatever memory holds. */
    constructor (contents: Contents)
      ensures Value() == contents
    {
      header, headerCrc := contents.header, contents.headerCrc;
      checkpoints, fault := contents.checkpoints, contents.fault;
    }

    method SealHeader()
      modifies this`headerCrc
      ensures headerCrc == HeaderDigest(header)
    {
      headerCrc := HeaderDigest(header);
    }

    method Previously() returns (previous: Option<Previous>)
      requires Value().Shaped()
      ensures previous == Left(Value())
    {
      if !HeaderValid(header, headerCrc) {
        return None;
      }
      var first := Oldest(header.head, header.len);
      var kept := ReadBack(DecodeMark, checkpoints, first, header.len);
      return Some(Previous(header.bootCount, kept, fault.Decode()));
    }

    method BeginBoot() returns (previous: Option<Previous>)
      requires Value().Shaped()
      modifies this
      ensures previous == Left(old(Value())) && Value() == Begun(old(Value()))
    {
      previous := Previously();
      Clear(if previous.Some? then previous.value.bootCount + 1 else 1);
    }

    method Clear(count: Word)
      modifies this
      ensures Value() == Fresh(count)
    {
      NoFaultDecodes();
      header := Header(MAGIC, LAYOUT, count, 0, 0);
      checkpoints, fault := EmptyRing(CAPACITY), NO_FAULT.Seal();
      SealHeader();
    }

    method Append(raw: RawCheckpoint)
      requires Value().Shaped()
      modifies this
      ensures Value() == Marked(old(Value()), raw)
    {
      var head := Slot(header.head);
      checkpoints := checkpoints[head := raw];
      MoveOn(head);
      SealHeader();
    }

    method MoveOn(head: nat)
      requires head == Slot(header.head)
      modifies this`header
      ensures header == Advance(old(header))
    {
      header := header.(head := Slot(head + 1), len := Grown(header.len));
    }

    method Checkpoint(name: Text, arg: Word, uptimeMs: Word, hart: bv8)
      requires Value().Shaped()
      modifies this
      ensures Value() == Recorded(old(Value()), Passed(name, arg, uptimeMs, hart))
    {
      var padded := Utf8.Bytes(name, NAME_BYTES);
      var raw := RawCheckpoint(padded, arg, uptimeMs, Crc32c.Wide(hart), 0);
      Append(raw.Seal());
    }

    method RecordHang(hang: HangFault)
      requires Value().Shaped() && |hang.samples| == 16
      modifies this`fault
      ensures Value() == Recorded(old(Value()), Hung(hang))
    {
      fault := RawHang(hang);
    }

    /** Fills the fault in place, whatever it held. */
    method RecordPanic(file: Text, line: Word, message: Text)
      requires Value().Shaped()
      modifies this`fault
      ensures Value() == Recorded(old(Value()), Panicked(file, line, message))
    {
      fault := fault.(kind := FAULT_PANIC, detectedMs := 0, stalledExecutors := 0);
      fault := fault.(harts := [Quiet(6), Quiet(6)], samples := Quiet(16));
      fault := fault.(stalledTask := 0, pendingMs := 0, line := line);
      var padded := Utf8.Bytes(file, FILE_BYTES);
      fault := fault.(file := padded);
      padded := Utf8.Bytes(message, MESSAGE_BYTES);
      fault := fault.(message := padded);
      var digest := DigestFault(fault);
      SealIgnoresCrc(fault, RawPanic(file, line, message));
      fault := fault.(crc := digest);
    }
  }

  lemma SealIgnoresCrc(f: RawFault, sealed: RawFault)
    requires f.Shaped() && sealed.Shaped() && sealed == f.(crc := sealed.crc) && sealed.crc == sealed.Digest()
    ensures f.(crc := f.Digest()) == sealed
  {
  }
}
