/**
 Parts of the post-mortem record of `hil/agent/src/postmortem.rs`: a checkpoint and a fault as words and
 bytes under a CRC-32C, what they decode to, and that a damaged part is dropped.
 */
module PostMortem {
  import opened Wrappers
  import Crc32c
  import Utf8

  type Word = bv32
  type Text = s: seq<bv8> | Utf8.Valid(s)

  const NAME_BYTES: nat := 16
  const FILE_BYTES: nat := 48
  const MESSAGE_BYTES: nat := 96

  const FAULT_NONE: Word := 0
  const FAULT_HANG: Word := 1
  const FAULT_PANIC: Word := 2

  datatype TaskSlot = Console | SessionEvidence

  datatype TaskStall = TaskStall(slot: TaskSlot, pendingMs: Word)

  datatype HartState = HartState(responded: bool, mepc: Word, ra: Word, sp: Word, mcause: Word, mstatus: Word)

  datatype HangFault = HangFault(detectedMs: Word, stalledExecutors: bv8, first: HartState, second: HartState,
                                 samples: seq<Word>, stalledTask: Option<TaskStall>)

  datatype PanicFault = PanicFault(file: seq<bv8>, line: Word, message: seq<bv8>)

  datatype Fault = Hang(hang: HangFault) | Panic(panic: PanicFault)

  datatype Checkpoint = Checkpoint(name: seq<bv8>, arg: Word, uptimeMs: Word, hart: bv8)

  // ------------------------------------------------------ words and bytes

  /** Words as they lie in memory. */
  function Words(words: seq<Word>): seq<bv8> {
    if words == [] then [] else Words(words[..|words| - 1]) + Crc32c.ToLe(words[|words| - 1])
  }

  /** A byte from a word that holds one. */
  function ByteOf(w: Word): Option<bv8> {
    if w < 0x100 then Some(Crc32c.Narrow(w)) else None
  }

  lemma ByteOfWide(b: bv8)
    ensures ByteOf(Crc32c.Wide(b)) == Some(b)
  {
  }

  // ------------------------------------------------------ checkpoints

  datatype RawCheckpoint = RawCheckpoint(name: seq<bv8>, arg: Word, uptimeMs: Word, hart: Word, crc: Word) {
    function Image(): seq<bv8> {
      name + Words([arg, uptimeMs, hart])
    }

    function Digest(): Word {
      Crc32c.Checksum(Image())
    }

    function Seal(): RawCheckpoint {
      this.(crc := Digest())
    }

    function Decode(): Option<Checkpoint> {
      if crc != Digest() then None
      else
        var text, byte := Utf8.Text(name), ByteOf(hart);
        if text.Some? && byte.Some? then Some(Checkpoint(text.value, arg, uptimeMs, byte.value)) else None
    }
  }

  const EMPTY_CHECKPOINT := RawCheckpoint(Utf8.Zeros(NAME_BYTES), 0, 0, 0, 0)

  function RawMark(name: Text, arg: Word, uptimeMs: Word, hart: bv8): RawCheckpoint {
    RawCheckpoint(Utf8.Padded(name, NAME_BYTES), arg, uptimeMs, Crc32c.Wide(hart), 0).Seal()
  }

  /** What a checkpoint keeps of what was passed. */
  function Mark(name: Text, arg: Word, uptimeMs: Word, hart: bv8): Checkpoint {
    Checkpoint(Kept(name, NAME_BYTES), arg, uptimeMs, hart)
  }

  /** The longest prefix that fits, up to the first zero. */
  function Kept(text: Text, n: nat): seq<bv8> {
    Utf8.UpToZero(Utf8.Cut(text, n))
  }

  lemma CheckpointRoundTrip(name: Text, arg: Word, uptimeMs: Word, hart: bv8)
    ensures RawMark(name, arg, uptimeMs, hart).Decode() == Some(Mark(name, arg, uptimeMs, hart))
  {
    Utf8.TextOfPadded(name, NAME_BYTES);
    ByteOfWide(hart);
  }

  // ------------------------------------------------------ faults

  datatype RawFault = RawFault(
    kind: Word, detectedMs: Word, stalledExecutors: Word, harts: seq<seq<Word>>, samples: seq<Word>, stalledTask: Word,
    pendingMs: Word, line: Word, file: seq<bv8>, message: seq<bv8>, crc: Word)
  {
    /** The sizes of its arrays. */
    predicate Shaped() {
      && |harts| == 2 && |harts[0]| == 6 && |harts[1]| == 6 && |samples| == 16
      && |file| == FILE_BYTES && |message| == MESSAGE_BYTES
    }

    /** The bytes under the CRC. */
    function Image(): seq<bv8>
      requires Shaped()
    {
      Words(FaultWords(this)) + file + message
    }

    function Digest(): Word
      requires Shaped()
    {
      Crc32c.Checksum(Image())
    }

    function Seal(): RawFault
      requires Shaped()
    {
      this.(crc := Digest())
    }

    function Decode(): Option<Fault>
      requires Shaped()
    {
      if crc != Digest() then None
      else if kind == FAULT_HANG then DecodeHang()
      else if kind == FAULT_PANIC then DecodePanic()
      else None
    }

    function DecodeHang(): Option<Fault>
      requires Shaped()
    {
      var executors, stall := ByteOf(stalledExecutors), DecodeStall(stalledTask, pendingMs);
      if executors.Some? && stall.Ok?
      then Some(Hang(HangFault(detectedMs, executors.value, HartOf(harts[0]), HartOf(harts[1]), samples, stall.value)))
      else None
    }

    function DecodePanic(): Option<Fault> {
      var f, m := Utf8.Text(file), Utf8.Text(message);
      if f.Some? && m.Some? then Some(Panic(PanicFault(f.value, line, m.value))) else None
    }
  }

  /** The words under the CRC of a fault. */
  function FaultWords(f: RawFault): (ws: seq<Word>)
    requires f.Shaped()
    ensures |ws| == 34
  {
    [f.kind, f.detectedMs, f.stalledExecutors] + (f.harts[0] + f.harts[1] + f.samples) +
      [f.stalledTask, f.pendingMs, f.line]
  }

  const NO_FAULT := RawFault(FAULT_NONE, 0, 0, [Quiet(6), Quiet(6)], Quiet(16), 0, 0, 0,
                             Utf8.Zeros(FILE_BYTES), Utf8.Zeros(MESSAGE_BYTES), 0)

  function Quiet(n: nat): (words: seq<Word>)
    ensures |words| == n
  {
    if n == 0 then [] else Quiet(n - 1) + [0]
  }

  function HartOf(words: seq<Word>): HartState
    requires |words| == 6
  {
    HartState(words[0] != 0, words[1], words[2], words[3], words[4], words[5])
  }

  function HartWords(hart: HartState): (words: seq<Word>)
    ensures |words| == 6
  {
    [if hart.responded then 1 else 0, hart.mepc, hart.ra, hart.sp, hart.mcause, hart.mstatus]
  }

  /** Zero, or one plus the slot's position. */
  function StallWord(stall: Option<TaskStall>): Word {
    match stall
    case None => 0
    case Some(TaskStall(Console, _)) => 1
    case Some(TaskStall(SessionEvidence, _)) => 2
  }

  /** `Err` for a position no slot has. */
  function DecodeStall(position: Word, pendingMs: Word): Result<Option<TaskStall>, ()> {
    if position == 0 then Ok(None)
    else if position == 1 then Ok(Some(TaskStall(Console, pendingMs)))
    else if position == 2 then Ok(Some(TaskStall(SessionEvidence, pendingMs)))
    else Err(())
  }

  function RawHang(hang: HangFault): (raw: RawFault)
    requires |hang.samples| == 16
    ensures raw.Shaped()
  {
    NO_FAULT.(kind := FAULT_HANG, detectedMs := hang.detectedMs, stalledExecutors := Crc32c.Wide(hang.stalledExecutors),
              harts := [HartWords(hang.first), HartWords(hang.second)], samples := hang.samples,
              stalledTask := StallWord(hang.stalledTask),
              pendingMs := if hang.stalledTask.Some? then hang.stalledTask.value.pendingMs else 0).Seal()
  }

  function RawPanic(file: Text, line: Word, message: Text): (raw: RawFault)
    ensures raw.Shaped()
  {
    NO_FAULT.(kind := FAULT_PANIC, line := line, file := Utf8.Padded(file, FILE_BYTES),
              message := Utf8.Padded(message, MESSAGE_BYTES)).Seal()
  }

  lemma HangRoundTrip(hang: HangFault)
    requires |hang.samples| == 16
    ensures RawHang(hang).Decode() == Some(Hang(hang))
  {
    var raw := RawHang(hang);
    SealDecodes(raw.(crc := 0), raw);
    StallRoundTrip(hang.stalledTask, raw.pendingMs);
    HangDecodes(raw, hang);
  }

  lemma StallRoundTrip(stall: Option<TaskStall>, pendingMs: Word)
    requires stall.Some? ==> pendingMs == stall.value.pendingMs
    ensures DecodeStall(StallWord(stall), pendingMs) == Ok(stall)
  {
  }

  /** The words of a hang, read back field by field. */
  lemma HangDecodes(f: RawFault, hang: HangFault)
    requires f.Shaped() && f.crc == f.Digest() && f.kind == FAULT_HANG
    requires f.detectedMs == hang.detectedMs && f.stalledExecutors == Crc32c.Wide(hang.stalledExecutors)
    requires f.harts == [HartWords(hang.first), HartWords(hang.second)] && f.samples == hang.samples
    requires DecodeStall(f.stalledTask, f.pendingMs) == Ok(hang.stalledTask)
    ensures f.Decode() == Some(Hang(hang))
  {
    ByteOfWide(hang.stalledExecutors);
    HartRoundTrip(hang.first);
    HartRoundTrip(hang.second);
  }

  lemma HartRoundTrip(hart: HartState)
    ensures HartOf(HartWords(hart)) == hart
  {
  }

  lemma PanicRoundTrip(file: Text, line: Word, message: Text)
    ensures RawPanic(file, line, message).Decode() ==
            Some(Panic(PanicFault(Kept(file, FILE_BYTES), line, Kept(message, MESSAGE_BYTES))))
  {
    Utf8.TextOfPadded(file, FILE_BYTES);
    Utf8.TextOfPadded(message, MESSAGE_BYTES);
    SealDecodes(RawPanic(file, line, message).(crc := 0), RawPanic(file, line, message));
  }

  /** A seal does not change what is sealed. */
  lemma SealDecodes(f: RawFault, sealed: RawFault)
    requires f.Shaped() && sealed == f.Seal()
    ensures sealed.crc == sealed.Digest()
  {
  }

  lemma NoFaultDecodes()
    ensures NO_FAULT.Shaped() && NO_FAULT.Seal().Decode() == None
  {
  }

  /** A checkpoint under its CRC is reported exactly if its hart is a byte and its name a text. */
  lemma CheckpointDecodesIff(c: RawCheckpoint)
    ensures c.Decode().Some? <==> c.crc == c.Digest() && c.hart <= 0xFF && Utf8.Text(c.name).Some?
  {
  }

  /** A fault under its CRC is reported exactly if it is a hang of a byte's executors and a known task slot,
      or a panic with two texts. */
  lemma FaultDecodesIff(f: RawFault)
    requires f.Shaped()
    ensures f.Decode().Some? <==>
            f.crc == f.Digest() &&
            ((f.kind == 1 && f.stalledExecutors <= 0xFF && f.stalledTask <= 2) ||
             (f.kind == 2 && Utf8.Text(f.file).Some? && Utf8.Text(f.message).Some?))
    ensures f.Decode().Some? ==> (f.Decode().value.Hang? <==> f.kind == 1)
  {
    StallKnown(f.stalledTask, f.pendingMs);
  }

  lemma StallKnown(position: Word, pendingMs: Word)
    ensures DecodeStall(position, pendingMs).Ok? <==> position <= 2
  {
  }

  // ------------------------------------------------------ damage

  /** A part in memory: what its CRC covers, then the CRC. */
  function Stored(image: seq<bv8>, crc: Word): seq<bv8> {
    image + Crc32c.ToLe(crc)
  }

  /** Changing up to four consecutive bytes of a sealed part breaks its seal. */
  lemma SealBroken(image: seq<bv8>, damaged: seq<bv8>, crc: Word, before: seq<bv8>, u: seq<bv8>, v: seq<bv8>,
                   after: seq<bv8>)
    requires |u| == |v| <= 4 && u != v && |damaged| == |image|
    requires Stored(image, Crc32c.Checksum(image)) == before + u + after
    requires Stored(damaged, crc) == before + v + after
    ensures crc != Crc32c.Checksum(damaged)
  {
    Crc32c.BurstDetected(image, before, u, v, after);
    var stored := before + v + after;
    assert stored[..|image|] == damaged && stored[|image|..] == Crc32c.ToLe(crc);
    Crc32c.LeRoundTrip(crc);
  }

  /** A sealed fault damaged in any one word, its CRC included, is dropped. */
  lemma DamagedFaultDropped(f: RawFault, damaged: RawFault, before: seq<bv8>, u: seq<bv8>, v: seq<bv8>, after: seq<bv8>)
    requires f.Shaped() && damaged.Shaped() && f.crc == f.Digest()
    requires |u| == |v| <= 4 && u != v
    requires Stored(f.Image(), f.crc) == before + u + after
    requires Stored(damaged.Image(), damaged.crc) == before + v + after
    ensures damaged.Decode() == None
  {
    SameSize(|f.Image()|, |damaged.Image()|, f.Image(), f.crc, damaged.Image(), damaged.crc, before, u, v, after);
    SealBroken(f.Image(), damaged.Image(), damaged.crc, before, u, v, after);
  }

  lemma SameSize(m: nat, n: nat, a: seq<bv8>, c: Word, b: seq<bv8>, d: Word, before: seq<bv8>, u: seq<bv8>,
                 v: seq<bv8>, after: seq<bv8>)
    requires m == |a| && n == |b| && |u| == |v|
    requires Stored(a, c) == before + u + after && Stored(b, d) == before + v + after
    ensures m == n
  {
    assert |Stored(a, c)| == m + 4 && |Stored(b, d)| == n + 4;
    assert |before + u + after| == |before + v + after|;
  }

  lemma DamagedCheckpointDropped(c: RawCheckpoint, damaged: RawCheckpoint, before: seq<bv8>, u: seq<bv8>, v: seq<bv8>,
                                 after: seq<bv8>)
    requires c.crc == c.Digest()
    requires |u| == |v| <= 4 && u != v
    requires Stored(c.Image(), c.crc) == before + u + after
    requires Stored(damaged.Image(), damaged.crc) == before + v + after
    ensures damaged.Decode() == None
  {
    SameSize(|c.Image()|, |damaged.Image()|, c.Image(), c.crc, damaged.Image(), damaged.crc, before, u, v, after);
    SealBroken(c.Image(), damaged.Image(), damaged.crc, before, u, v, after);
  }

  // ------------------------------------------------------ damage field by field

  /** Another word in one place of `ws` gives another checksum. */
  lemma WordChangesChecksum(before: seq<bv8>, ws: seq<Word>, w: nat, x: Word, after: seq<bv8>)
    requires w < |ws| && x != ws[w]
    ensures Crc32c.Checksum(before + Words(ws) + after) != Crc32c.Checksum(before + Words(ws[w := x]) + after)
  {
    var first, rest := Words(ws[..w]), Words(ws[w + 1..]);
    WordsAround(ws, w);
    WordsAround(ws[w := x], w);
    assert ws[w := x][..w] == ws[..w] && ws[w := x][w + 1..] == ws[w + 1..];
    Crc32c.LeRoundTrip(ws[w]);
    Crc32c.LeRoundTrip(x);
    Crc32c.BurstChangesChecksum(before + first, Crc32c.ToLe(ws[w]), Crc32c.ToLe(x), rest + after);
    Regrouped(before, first, Crc32c.ToLe(ws[w]), rest, after);
    Regrouped(before, first, Crc32c.ToLe(x), rest, after);
  }

  lemma Regrouped(before: seq<bv8>, first: seq<bv8>, u: seq<bv8>, rest: seq<bv8>, after: seq<bv8>)
    ensures before + (first + u + rest) + after == before + first + u + (rest + after)
  {
  }

  lemma WordsAround(ws: seq<Word>, w: nat)
    requires w < |ws|
    ensures Words(ws) == Words(ws[..w]) + Crc32c.ToLe(ws[w]) + Words(ws[w + 1..])
  {
    var first, rest := ws[..w + 1], ws[w + 1..];
    assert ws == first + rest;
    WordsConcat(first, rest);
    assert first[..w] == ws[..w];
    OneMore(first);
  }

  lemma OneMore(ws: seq<Word>)
    requires ws != []
    ensures Words(ws) == Words(ws[..|ws| - 1]) + Crc32c.ToLe(ws[|ws| - 1])
  {
  }

  lemma {:induction false} WordsLength(ws: seq<Word>)
    ensures |Words(ws)| == 4 * |ws|
  {
    if ws != [] {
      WordsLength(ws[..|ws| - 1]);
    }
  }

  /** A sealed checkpoint in which one word has another value is dropped. */
  lemma CheckpointWordDamaged(c: RawCheckpoint, x: Word, damaged: RawCheckpoint)
    requires c.crc == c.Digest()
    requires || (x != c.arg && damaged == c.(arg := x))
             || (x != c.uptimeMs && damaged == c.(uptimeMs := x))
             || (x != c.hart && damaged == c.(hart := x))
             || (x != c.crc && damaged == c.(crc := x))
    ensures damaged.Decode() == None
  {
    if damaged.crc == c.crc {
      var w := if damaged.arg != c.arg then 0 else if damaged.uptimeMs != c.uptimeMs then 1 else 2;
      MarkWordDamaged(c, w, x, damaged);
    }
  }

  lemma MarkWordDamaged(c: RawCheckpoint, w: nat, x: Word, damaged: RawCheckpoint)
    requires w < 3 && c.crc == c.Digest() == damaged.crc && damaged.name == c.name
    requires [damaged.arg, damaged.uptimeMs, damaged.hart] == [c.arg, c.uptimeMs, c.hart][w := x]
    ensures x != [c.arg, c.uptimeMs, c.hart][w] ==> damaged.Decode() == None
  {
    var ws := [c.arg, c.uptimeMs, c.hart];
    if x != ws[w] {
      WordChangesChecksum(c.name, ws, w, x, []);
      assert c.Image() == c.name + Words(ws) + [] && damaged.Image() == c.name + Words(ws[w := x]) + [];
    }
  }

  /** So is one in whose name up to four consecutive bytes changed. */
  lemma CheckpointNameDamaged(c: RawCheckpoint, before: seq<bv8>, u: seq<bv8>, v: seq<bv8>, after: seq<bv8>)
    requires c.crc == c.Digest() && c.name == before + u + after && |u| == |v| <= 4 && u != v
    ensures c.(name := before + v + after).Decode() == None
  {
    var words := Words([c.arg, c.uptimeMs, c.hart]);
    Crc32c.BurstChangesChecksum(before, u, v, after + words);
    assert c.Image() == before + u + (after + words);
    assert c.(name := before + v + after).Image() == before + v + (after + words);
  }

  /** Where each part of a fault lies under its CRC. */
  lemma FaultLayout(f: RawFault, hart: nat, i: nat, k: nat)
    requires f.Shaped() && hart < 2 && i < 6 && k < 16
    ensures var ws := FaultWords(f);
            f.Image() == Words(ws) + f.file + f.message && |Words(ws)| == 136 && |f.Image()| == 280 &&
            ws[0] == f.kind && ws[1] == f.detectedMs && ws[2] == f.stalledExecutors &&
            ws[3 + 6 * hart + i] == f.harts[hart][i] && ws[15 + k] == f.samples[k] &&
            ws[31] == f.stalledTask && ws[32] == f.pendingMs && ws[33] == f.line
  {
    WordsLength(FaultWords(f));
  }

  /** An intact shape from which nothing is read. */
  predicate Dropped(f: RawFault) {
    f.Shaped() && f.Decode() == None
  }

  lemma FaultDamagedAt(f: RawFault, w: nat, x: Word, damaged: RawFault)
    requires f.Shaped() && damaged.Shaped() && f.crc == f.Digest() == damaged.crc && w < 34
    requires FaultWords(damaged) == FaultWords(f)[w := x] && damaged.file == f.file && damaged.message == f.message
    ensures x != FaultWords(f)[w] ==> Dropped(damaged)
  {
    var ws := FaultWords(f);
    if x != ws[w] {
      WordChangesChecksum([], ws, w, x, f.file + f.message);
      assert f.Image() == [] + Words(ws) + (f.file + f.message);
      assert damaged.Image() == [] + Words(ws[w := x]) + (f.file + f.message);
    }
  }

  lemma FirstWords(f: RawFault, x: Word)
    requires f.Shaped()
    ensures FaultWords(f.(kind := x)) == FaultWords(f)[0 := x]
    ensures FaultWords(f.(detectedMs := x)) == FaultWords(f)[1 := x]
    ensures FaultWords(f.(stalledExecutors := x)) == FaultWords(f)[2 := x]
  {
  }

  lemma LastWords(f: RawFault, x: Word)
    requires f.Shaped()
    ensures FaultWords(f.(stalledTask := x)) == FaultWords(f)[31 := x]
    ensures FaultWords(f.(pendingMs := x)) == FaultWords(f)[32 := x]
    ensures FaultWords(f.(line := x)) == FaultWords(f)[33 := x]
  {
  }

  /** Which word that is. */
  lemma WordHit(f: RawFault, x: Word, damaged: RawFault) returns (w: nat)
    requires f.Shaped() && damaged.crc == f.crc
    requires || (x != f.kind && damaged == f.(kind := x))
             || (x != f.detectedMs && damaged == f.(detectedMs := x))
             || (x != f.stalledExecutors && damaged == f.(stalledExecutors := x))
             || (x != f.stalledTask && damaged == f.(stalledTask := x))
             || (x != f.pendingMs && damaged == f.(pendingMs := x))
             || (x != f.line && damaged == f.(line := x))
             || (x != f.crc && damaged == f.(crc := x))
    ensures w < 34 && damaged.Shaped() && FaultWords(damaged) == FaultWords(f)[w := x] && x != FaultWords(f)[w]
  {
    FirstWords(f, x);
    LastWords(f, x);
    w := if damaged.kind != f.kind then 0 else if damaged.detectedMs != f.detectedMs then 1
         else if damaged.stalledExecutors != f.stalledExecutors then 2
         else if damaged.stalledTask != f.stalledTask then 31 else if damaged.pendingMs != f.pendingMs then 32 else 33;
  }

  /** A sealed fault in which one word has another value is dropped. */
  lemma FaultWordDamaged(f: RawFault, x: Word, damaged: RawFault)
    requires f.Shaped() && f.crc == f.Digest()
    requires || (x != f.kind && damaged == f.(kind := x))
             || (x != f.detectedMs && damaged == f.(detectedMs := x))
             || (x != f.stalledExecutors && damaged == f.(stalledExecutors := x))
             || (x != f.stalledTask && damaged == f.(stalledTask := x))
             || (x != f.pendingMs && damaged == f.(pendingMs := x))
             || (x != f.line && damaged == f.(line := x))
             || (x != f.crc && damaged == f.(crc := x))
    ensures Dropped(damaged)
  {
    if damaged.crc == f.crc {
      var w := WordHit(f, x, damaged);
      FaultDamagedAt(f, w, x, damaged);
    }
  }

  /** So is one in which a word of a hart or a sample has another value. */
  lemma FaultHartDamaged(f: RawFault, hart: nat, i: nat, x: Word)
    requires f.Shaped() && f.crc == f.Digest() && hart < 2 && i < 6 && x != f.harts[hart][i]
    ensures Dropped(f.(harts := f.harts[hart := f.harts[hart][i := x]]))
  {
    HartWordsHit(f, hart, i, x);
    FaultDamagedAt(f, 3 + 6 * hart + i, x, f.(harts := f.harts[hart := f.harts[hart][i := x]]));
  }

  lemma {:induction false} HartWordsHit(f: RawFault, hart: nat, i: nat, x: Word)
    requires f.Shaped() && hart < 2 && i < 6
    ensures FaultWords(f)[3 + 6 * hart + i] == f.harts[hart][i]
    ensures var damaged := f.(harts := f.harts[hart := f.harts[hart][i := x]]);
            damaged.Shaped() && FaultWords(damaged) == FaultWords(f)[3 + 6 * hart + i := x]
  {
  }

  lemma FaultSampleDamaged(f: RawFault, k: nat, x: Word)
    requires f.Shaped() && f.crc == f.Digest() && k < 16 && x != f.samples[k]
    ensures Dropped(f.(samples := f.samples[k := x]))
  {
    SampleHit(f, k, x);
    FaultDamagedAt(f, 15 + k, x, f.(samples := f.samples[k := x]));
  }

  lemma SampleHit(f: RawFault, k: nat, x: Word)
    requires f.Shaped() && k < 16
    ensures FaultWords(f)[15 + k] == f.samples[k]
    ensures FaultWords(f.(samples := f.samples[k := x])) == FaultWords(f)[15 + k := x]
  {
  }

  /** So is one in whose file or message up to four consecutive bytes changed. */
  lemma FaultFileDamaged(f: RawFault, before: seq<bv8>, u: seq<bv8>, v: seq<bv8>, after: seq<bv8>)
    requires f.Shaped() && f.crc == f.Digest() && f.file == before + u + after && |u| == |v| <= 4 && u != v
    ensures Dropped(f.(file := before + v + after))
  {
    var words, damaged := Words(FaultWords(f)), f.(file := before + v + after);
    Crc32c.BurstChangesChecksum(words + before, u, v, after + f.message);
    assert f.Image() == words + before + u + (after + f.message);
    assert damaged.Image() == words + before + v + (after + f.message);
  }

  lemma FaultMessageDamaged(f: RawFault, before: seq<bv8>, u: seq<bv8>, v: seq<bv8>, after: seq<bv8>)
    requires f.Shaped() && f.crc == f.Digest() && f.message == before + u + after && |u| == |v| <= 4 && u != v
    ensures Dropped(f.(message := before + v + after))
  {
    var words, damaged := Words(FaultWords(f)), f.(message := before + v + after);
    Crc32c.BurstChangesChecksum(words + f.file + before, u, v, after);
    assert f.Image() == words + f.file + before + u + after;
    assert damaged.Image() == words + f.file + before + v + after;
  }

  // ------------------------------------------------------ the digest loop

  method UpdateWords(start: Word, words: seq<Word>) returns (digest: Word)
    ensures digest == Crc32c.Update(start, Words(words))
  {
    digest := start;
    for k := 0 to |words|
      invariant digest == Crc32c.Update(start, Words(words[..k]))
    {
      assert words[..k + 1][..k] == words[..k];
      Crc32c.UpdateConcat(start, Words(words[..k]), Crc32c.ToLe(words[k]));
      digest := Crc32c.UpdateLoop(digest, Crc32c.ToLe(words[k]));
    }
    assert words[..|words|] == words;
  }

  lemma {:induction false} WordsConcat(a: seq<Word>, b: seq<Word>)
    ensures Words(a + b) == Words(a) + Words(b)
  {
    if b == [] {
      assert a + b == a;
    } else {
      var front := b[..|b| - 1];
      WordsConcat(a, front);
      assert (a + b)[..|a + b| - 1] == a + front;
    }
  }

  method DigestFault(f: RawFault) returns (digest: Word)
    requires f.Shaped()
    ensures digest == f.Digest()
  {
    var first, middle, last := [f.kind, f.detectedMs, f.stalledExecutors], f.harts[0] + f.harts[1] + f.samples,
                               [f.stalledTask, f.pendingMs, f.line];
    digest := UpdateWords(Crc32c.INIT, first);
    digest := UpdateWords(digest, middle);
    digest := UpdateWords(digest, last);
    digest := Crc32c.UpdateLoop(digest, f.file);
    digest := Crc32c.UpdateLoop(digest, f.message);
    Pieces(Crc32c.INIT, first, middle, last, f.file, f.message);
    digest := !digest;
  }

  lemma Pieces(s: Word, a: seq<Word>, b: seq<Word>, c: seq<Word>, file: seq<bv8>, message: seq<bv8>)
    ensures Crc32c.Update(s, Words(a + b + c) + file + message) ==
            (var words := Crc32c.Update(Crc32c.Update(Crc32c.Update(s, Words(a)), Words(b)), Words(c));
             Crc32c.Update(Crc32c.Update(words, file), message))
  {
    WordsConcat(a + b, c);
    WordsConcat(a, b);
    Crc32c.UpdateConcat(s, Words(a + b + c) + file, message);
    Crc32c.UpdateConcat(s, Words(a + b + c), file);
    Crc32c.UpdateConcat(s, Words(a + b), Words(c));
    Crc32c.UpdateConcat(s, Words(a), Words(b));
  }
}
