/**
  What the joybus wire amounts to: one answer at a time, it is local and idempotent; over
  any run of frames, flushes and restarts, it is a map from (port, block) to 32 bytes.
 */
module SiWire {
  import opened Bytes
  import opened Wrappers
  import opened ControllerPak
  import opened SiPak
  import DataCrc

  // ----- One answer -----

  /** The offsets, from the start of its block, at which the answer to a request may differ from it. */
  predicate InReply(r: Request, offset: int) {
    match r
    case Status(_) => 3 <= offset <= 5
    case Pak(_, write) => if write then offset == 0x26 else 6 <= offset <= 0x26
  }

  /** Nothing outside the reply changes, and the reply lies inside the PIF area. */
  lemma AnswerIsLocal(w: Wire, mem: seq<byte>, pif: nat, writable: bool)
    requires w.Shaped() && pif + PIF_SIZE <= |mem|
    ensures var after := Served(w, mem, pif, writable).mem;
            match Recognise(mem, pif)
            case None => after == mem
            case Some(r) => forall k :: 0 <= k < |mem| && after[k] != mem[k] ==>
                                          pif <= k < pif + PIF_SIZE && InReply(r, k - (pif + r.channel))
  {
    hide DataCrc.Crc, EmptyImage, Live;
  }

  /** The request survives its own answer. */
  lemma StillRecognised(w: Wire, mem: seq<byte>, pif: nat, writable: bool, r: Request)
    requires w.Shaped() && pif + PIF_SIZE <= |mem| && Recognise(mem, pif) == Some(r)
    ensures var after := Served(w, mem, pif, writable).mem;
            && Recognise(after, pif) == Some(r)
            && (r.Pak? ==> BlockNumber(after, pif + r.channel) == BlockNumber(mem, pif + r.channel))
            && (r.Pak? && r.write ==> Payload(after, pif + r.channel) == Payload(mem, pif + r.channel))
  {
    var after := Served(w, mem, pif, writable).mem;
    AnswerIsLocal(w, mem, pif, writable);
    RecogniseExact(mem, pif, r);
    RecogniseExact(after, pif, r);
    hide Served, Recognise;
    var base := pif + r.channel;
    assert forall k :: 0 <= k < |mem| && !InReply(r, k - base) ==> after[k] == mem[k];
    assert ZeroFiller(after, pif, r.channel);
    assert after[base] == mem[base] && after[base + 1] == mem[base + 1] && after[base + 2] == mem[base + 2];
    if r.Pak? {
      assert after[base + 3] == mem[base + 3] && after[base + 4] == mem[base + 4] && after[base + 5] == mem[base + 5];
    }
  }

  lemma TransferTwice(w: Wire, c: nat, block: nat, write: bool, payload: seq<byte>, again: seq<byte>,
                      writable: bool, writable2: bool)
    requires w.Shaped() && c < PORTS && |payload| == |again| == BLOCK_SIZE
    requires write ==> again == payload
    ensures var v := AfterPak(w, c, block, write, payload, writable);
            && AfterPak(v, c, block, write, again, writable2) == v
            && Carried(v, c, block, write, again) == Carried(w, c, block, write, payload)
  {
    hide EmptyImage;
    if block < BLOCK_DETECT && write {
      var t := Touched(w.store, c, writable);
      if BlockOf(t.pak[c], block) != payload {
        BlockOfOverwritten(t.pak[c], block, payload, block);
      }
    }
  }

  lemma ReplyTwice(mem: seq<byte>, base: nat, write: bool, data: seq<byte>)
    requires base + 0x27 <= |mem| && |data| == BLOCK_SIZE
    ensures PakReply(PakReply(mem, base, write, data), base, write, data) == PakReply(mem, base, write, data)
  {
    hide DataCrc.Crc;
  }

  lemma AnswerTwice(w: Wire, mem: seq<byte>, base: nat, c: nat, write: bool, writable: bool, writable2: bool)
    requires w.Shaped() && base + 0x27 <= |mem| && c < PORTS
    requires var after := AnswerPak(w, mem, base, c, write, writable).mem;
             && BlockNumber(after, base) == BlockNumber(mem, base)
             && (write ==> Payload(after, base) == Payload(mem, base))
    ensures var once := AnswerPak(w, mem, base, c, write, writable);
            AnswerPak(once.wire, once.mem, base, c, write, writable2) == once
  {
    hide AfterPak, Carried, PakReply, BlockNumber, Payload;
    var once := AnswerPak(w, mem, base, c, write, writable);
    var block, payload := BlockNumber(mem, base), Payload(mem, base);
    TransferTwice(w, c, block, write, payload, Payload(once.mem, base), writable, writable2);
    ReplyTwice(mem, base, write, Carried(w, c, block, write, payload));
  }

  /**
    Serving the same buffer twice is serving it once, in memory and behind the wire, whichever files
    could be opened.
   */
  lemma ServiceIsIdempotent(w: Wire, mem: seq<byte>, pif: nat, writable: bool, writable2: bool)
    requires w.Shaped() && pif + PIF_SIZE <= |mem|
    ensures var once := Served(w, mem, pif, writable);
            Served(once.wire, once.mem, pif, writable2) == once
  {
    hide AnswerPak, Recognise;
    var once := Served(w, mem, pif, writable);
    match Recognise(mem, pif)
    case None =>
    case Some(Status(c)) =>
      StillRecognised(w, mem, pif, writable, Status(c));
      assert StatusReply(once.mem, pif + c, c) == once.mem;
    case Some(Pak(c, write)) =>
      StillRecognised(w, mem, pif, writable, Pak(c, write));
      AnswerTwice(w, mem, pif + c, c, write, writable, writable2);
  }

  // ----- The wire as a map -----

  predicate Sound(w: Wire) { w.Shaped() && ControllerPak.Sound(w.store) }

  /** What a read of `block` on `port` returns now. */
  function Cell(w: Wire, port: nat, block: nat): (data: seq<byte>)
    requires w.Shaped() && port < PORTS && block <= BLOCK_DETECT
  {
    if block == BLOCK_DETECT then w.detect[port] else BlockOf(Live(w.store, port), block)
  }

  /** What it would return after a restart: the identify cell is not kept. */
  function SavedCell(w: Wire, port: nat, block: nat): (data: seq<byte>)
    requires port < PORTS && block <= BLOCK_DETECT
  {
    if block == BLOCK_DETECT then Blank() else BlockOf(Saved(w.store, port), block)
  }

  /** `writable` says which pak files could be opened for writing at that moment. */
  datatype Event =
    | Frame(mem: seq<byte>, pif: nat, writable: bool)
    | Flush(ports: set<nat>)
    | Restart

  predicate WellFormed(e: Event) { e.Frame? ==> e.pif + PIF_SIZE <= |e.mem| }

  function Step(w: Wire, e: Event): (v: Wire)
    requires w.Shaped() && WellFormed(e)
    ensures v.Shaped()
  {
    match e
    case Frame(mem, pif, writable) => Served(w, mem, pif, writable).wire
    case Flush(ports) => w.(store := AfterFlush(w.store, ports, PORTS))
    case Restart => Wire(Restarted(w.store), [Blank(), Blank(), Blank(), Blank()])
  }

  function Run(w: Wire, history: seq<Event>): (v: Wire)
    requires w.Shaped() && forall e :: e in history ==> WellFormed(e)
    ensures v.Shaped()
  {
    if history == [] then w else Step(Run(w, history[..|history| - 1]), history[|history| - 1])
  }

  /** The event is a WRITE_PAK to this block of this port. */
  predicate Stores(e: Event, port: nat, block: nat)
    requires WellFormed(e)
  {
    e.Frame? && Recognise(e.mem, e.pif) == Some(Pak(port, true)) && port < PORTS && BlockNumber(e.mem, e.pif + port) == block
  }

  /**
    The reference, over the history alone: the data of the last write to this cell since the
    last restart; before that, what was saved at the restart.
   */
  function LastWritten(start: Wire, history: seq<Event>, port: nat, block: nat): seq<byte>
    requires start.Shaped() && (forall e :: e in history ==> WellFormed(e)) && port < PORTS && block <= BLOCK_DETECT
    decreases history, 1
  {
    if history == [] then Cell(start, port, block) else
    var past, e := history[..|history| - 1], history[|history| - 1];
    if e.Restart? then LastSaved(start, past, port, block)
    else if Stores(e, port, block) then Payload(e.mem, e.pif + port)
    else LastWritten(start, past, port, block)
  }

  /** What was last written when this port's file was last flushed; the identify cell never is. */
  function LastSaved(start: Wire, history: seq<Event>, port: nat, block: nat): seq<byte>
    requires start.Shaped() && (forall e :: e in history ==> WellFormed(e)) && port < PORTS && block <= BLOCK_DETECT
    decreases history, 0
  {
    if history == [] then SavedCell(start, port, block) else
    var past, e := history[..|history| - 1], history[|history| - 1];
    if e.Flush? && port in e.ports && block < BLOCK_DETECT then LastWritten(start, past, port, block)
    else LastSaved(start, past, port, block)
  }

  /** A pak transfer changes the addressed cell of its port if it is a write, and no other cell. */
  lemma TransferMovesOneCell(w: Wire, c: nat, block: nat, write: bool, payload: seq<byte>, writable: bool,
                             port: nat, b: nat)
    requires Sound(w) && c < PORTS && |payload| == BLOCK_SIZE && port < PORTS && b <= BLOCK_DETECT
    ensures var v := AfterPak(w, c, block, write, payload, writable);
            && Sound(v)
            && Cell(v, port, b) == (if write && c == port && block == b then payload else Cell(w, port, b))
            && SavedCell(v, port, b) == SavedCell(w, port, b)
  {
    hide EmptyImage;
    if block < BLOCK_DETECT {
      if write {
        WriteChangesOneBlock(w.store, c, block, payload, writable, port);
        if b < BLOCK_DETECT {
          BlockOfOverwritten(Live(w.store, port), block, payload, b);
        }
      } else {
        ReadChangesNothing(w.store, c, block, writable, port);
      }
    }
  }

  lemma AnswerMovesCell(w: Wire, mem: seq<byte>, base: nat, c: nat, write: bool, writable: bool, port: nat, b: nat)
    requires Sound(w) && c < PORTS && base + 0x27 <= |mem| && port < PORTS && b <= BLOCK_DETECT
    ensures var v := AnswerPak(w, mem, base, c, write, writable).wire;
            && Sound(v)
            && Cell(v, port, b) == (if write && c == port && BlockNumber(mem, base) == b then Payload(mem, base)
                                    else Cell(w, port, b))
            && SavedCell(v, port, b) == SavedCell(w, port, b)
  {
    hide AfterPak, PakReply, Cell, SavedCell, Sound;
    TransferMovesOneCell(w, c, BlockNumber(mem, base), write, Payload(mem, base), writable, port, b);
  }

  lemma FlushMovesCells(w: Wire, ports: set<nat>, port: nat, b: nat)
    requires Sound(w) && port < PORTS && b <= BLOCK_DETECT
    ensures var v := Step(w, Flush(ports));
            && Sound(v) && Cell(v, port, b) == Cell(w, port, b)
            && SavedCell(v, port, b) == if port in ports && b < BLOCK_DETECT then Cell(w, port, b) else SavedCell(w, port, b)
  {
    hide EmptyImage;
    FlushSaves(w.store, ports, PORTS, port);
  }

  lemma RestartMovesCells(w: Wire, port: nat, b: nat)
    requires Sound(w) && port < PORTS && b <= BLOCK_DETECT
    ensures var v := Step(w, Restart);
            Sound(v) && Cell(v, port, b) == SavedCell(w, port, b) == SavedCell(v, port, b)
  {
    hide EmptyImage;
    RestartForgets(w.store, port);
  }

  /** One event, seen from one cell. */
  lemma StepMovesCell(w: Wire, e: Event, port: nat, b: nat)
    requires Sound(w) && WellFormed(e) && port < PORTS && b <= BLOCK_DETECT
    ensures var v := Step(w, e);
            && Sound(v)
            && Cell(v, port, b) == (if e.Restart? then SavedCell(w, port, b)
                                    else if Stores(e, port, b) then Payload(e.mem, e.pif + port)
                                    else Cell(w, port, b))
            && SavedCell(v, port, b) == (if e.Flush? && port in e.ports && b < BLOCK_DETECT then Cell(w, port, b)
                                         else SavedCell(w, port, b))
  {
    hide EmptyImage, Recognise, AnswerPak, StatusReply, Cell, SavedCell, ControllerPak.Sound, BlockNumber, Payload;
    match e
    case Frame(mem, pif, writable) =>
      match Recognise(mem, pif) {
        case None =>
        case Some(Status(_)) =>
        case Some(Pak(c, write)) => AnswerMovesCell(w, mem, pif + c, c, write, writable, port, b);
      }
    case Flush(ports) => FlushMovesCells(w, ports, port, b);
    case Restart => RestartMovesCells(w, port, b);
  }

  /**
    The wire refines a map.  From any sound start, over any run of frames, flushes and
    restarts, every block of every port holds what was last written to it, restarts bring
    back what was last flushed, and a loaded port with nothing unsaved matches its file.
   */
  lemma {:induction false} RunIsMap(start: Wire, history: seq<Event>, port: nat, block: nat)
    requires Sound(start) && (forall e :: e in history ==> WellFormed(e)) && port < PORTS && block <= BLOCK_DETECT
    ensures Sound(Run(start, history))
    ensures Cell(Run(start, history), port, block) == LastWritten(start, history, port, block)
    ensures SavedCell(Run(start, history), port, block) == LastSaved(start, history, port, block)
  {
    hide EmptyImage, Step, Cell, SavedCell, ControllerPak.Sound;
    if history != [] {
      var past, e := history[..|history| - 1], history[|history| - 1];
      RunIsMap(start, past, port, block);
      StepMovesCell(Run(start, past), e, port, block);
    }
  }

  /** A new process over any directory starts sound, with blank identify cells. */
  lemma FreshStartIsSound(files: map<nat, seq<byte>>)
    ensures Sound(Wire(Restarted(Store(true, files, [], [], [])), [Blank(), Blank(), Blank(), Blank()]))
  {
  }

  /** A status query is answered as its reader decodes it: a standard controller, with a card in port 0 alone. */
  lemma StatusAnswer(w: Wire, mem: seq<byte>, pif: nat, writable: bool, c: nat)
    requires w.Shaped() && pif + PIF_SIZE <= |mem| && Recognise(mem, pif) == Some(Status(c))
    ensures var a := Served(w, mem, pif, writable);
            && a.wire == w
            && a.mem[pif + c + 3] == 0x05 && a.mem[pif + c + 4] == 0x00
            && a.mem[pif + c + 5] == if c == 0 then 0x01 else 0x00
  {
    hide Recognise;
  }

  /** A read frame is answered with the addressed cell, or zeros above the identify register, and the CRC of that. */
  lemma ReadReply(w: Wire, mem: seq<byte>, pif: nat, writable: bool, c: nat)
    requires w.Shaped() && pif + PIF_SIZE <= |mem| && c < PORTS && Recognise(mem, pif) == Some(Pak(c, false))
    ensures var block, after := BlockNumber(mem, pif + c), Served(w, mem, pif, writable).mem;
            var data := if block <= BLOCK_DETECT then Cell(w, c, block) else Blank();
            Payload(after, pif + c) == data && |data| == 32 && after[pif + c + 0x26] == DataCrc.Crc(data)
  {
    hide DataCrc.Crc, EmptyImage, Recognise, Live;
  }

  /** A write frame is answered with the CRC of the data it carried. */
  lemma WriteReply(w: Wire, mem: seq<byte>, pif: nat, writable: bool, c: nat)
    requires w.Shaped() && pif + PIF_SIZE <= |mem| && c < PORTS && Recognise(mem, pif) == Some(Pak(c, true))
    ensures var after := Served(w, mem, pif, writable).mem;
            after[pif + c + 0x26] == DataCrc.Crc(Payload(mem, pif + c))
  {
    hide DataCrc.Crc, EmptyImage, Recognise, Live;
  }

  /** The block number is the address halfword over 32, and the data lie at offset 6. */
  lemma RequestByBytes(mem: seq<byte>, base: nat, k: nat)
    requires base + 0x27 <= |mem| && k < 32
    ensures BlockNumber(mem, base) == (256 * (mem[base + 4] as int) + mem[base + 5] as int) / 32
    ensures Payload(mem, base)[k] == mem[base + 6 + k]
  {
  }

  lemma CellByBytes(w: Wire, port: nat, block: nat, k: nat)
    requires w.Shaped() && port < PORTS && block <= BLOCK_DETECT && k < 32
    ensures |Cell(w, port, block)| == 32
    ensures Cell(w, port, block)[k] == if block == 0x400 then w.detect[port][k] else Live(w.store, port)[32 * block + k]
  {
    hide EmptyImage, Live;
  }

  /**
    A read is answered, from offset 6 of its block, with the 32 bytes of the port's image at 32 times
    the block number, with the identify register's at 0x400, and with zeros above.
   */
  lemma ReadByBytes(w: Wire, mem: seq<byte>, pif: nat, writable: bool, c: nat, block: nat, k: nat)
    requires w.Shaped() && pif + PIF_SIZE <= |mem| && c < PORTS && Recognise(mem, pif) == Some(Pak(c, false)) && k < 32
    requires block == (256 * (mem[pif + c + 4] as int) + mem[pif + c + 5] as int) / 32
    ensures Served(w, mem, pif, writable).mem[pif + c + 6 + k]
         == if block < 0x400 then Live(w.store, c)[32 * block + k] else if block == 0x400 then w.detect[c][k] else 0
  {
    hide Served, Recognise, Cell, Payload, BlockNumber, Live;
    RequestByBytes(mem, pif + c, k);
    ReadReply(w, mem, pif, writable, c);
    RequestByBytes(Served(w, mem, pif, writable).mem, pif + c, k);
    if block <= BLOCK_DETECT {
      CellByBytes(w, c, block, k);
    }
  }

  /**
    A write changes the 32 bytes of the port's image at 32 times the block number, or the identify
    register's at 0x400, to those at offset 6 of its block, and nothing else behind the wire.
   */
  lemma WriteByBytes(w: Wire, mem: seq<byte>, pif: nat, writable: bool, c: nat, block: nat, p: nat, k: nat)
    requires Sound(w) && pif + PIF_SIZE <= |mem| && c < PORTS && Recognise(mem, pif) == Some(Pak(c, true))
    requires block == (256 * (mem[pif + c + 4] as int) + mem[pif + c + 5] as int) / 32 && p < PORTS
    ensures var v := Served(w, mem, pif, writable).wire;
            && (k < 0x8000 ==>
                  Live(v.store, p)[k] == if p == c && block < 0x400 && 32 * block <= k < 32 * block + 32
                  then mem[pif + c + 6 + k - 32 * block] else Live(w.store, p)[k])
            && (k < 32 ==> v.detect[p][k] == if p == c && block == 0x400 then mem[pif + c + 6 + k] else w.detect[p][k])
  {
    hide EmptyImage, Recognise, Live, PakReply, Carried, AfterWrite, DataCrc.Crc;
    assert BlockNumber(mem, pif + c) == block;
    var payload := Payload(mem, pif + c);
    assert forall i :: 0 <= i < 32 ==> payload[i] == mem[pif + c + 6 + i];
    assert Served(w, mem, pif, writable).wire == AfterPak(w, c, block, true, payload, writable);
    if block < 0x400 && k < 0x8000 {
      ControllerPak.WriteByBytes(w.store, c, block, payload, writable, p, k);
    }
  }

  /** A read at the end of any run returns what was last written to the block. */
  lemma ReadAfterRun(start: Wire, history: seq<Event>, mem: seq<byte>, pif: nat, writable: bool, c: nat)
    requires Sound(start) && (forall e :: e in history ==> WellFormed(e))
    requires pif + PIF_SIZE <= |mem| && c < PORTS && Recognise(mem, pif) == Some(Pak(c, false))
    ensures var block := BlockNumber(mem, pif + c);
            Payload(Served(Run(start, history), mem, pif, writable).mem, pif + c)
            == if block <= BLOCK_DETECT then LastWritten(start, history, c, block) else Blank()
  {
    hide Recognise, Served, Cell, LastWritten, ControllerPak.Sound;
    ReadReply(Run(start, history), mem, pif, writable, c);
    if BlockNumber(mem, pif + c) <= BLOCK_DETECT {
      RunIsMap(start, history, c, BlockNumber(mem, pif + c));
    }
  }

  // ----- The map over a history, place by place -----

  /** Since event `i` nothing has written to this cell, and there has been no restart. */
  predicate Untouched(history: seq<Event>, port: nat, block: nat, i: nat, n: nat)
    requires forall e :: e in history ==> WellFormed(e)
  {
    forall j :: i < j < n && j < |history| ==> !history[j].Restart? && !Stores(history[j], port, block)
  }

  lemma {:induction false} LastWrittenAt(start: Wire, history: seq<Event>, port: nat, block: nat, i: nat)
    requires Sound(start) && (forall e :: e in history ==> WellFormed(e)) && port < PORTS && block <= BLOCK_DETECT
    requires i < |history| && Stores(history[i], port, block) && Untouched(history, port, block, i, |history|)
    ensures LastWritten(start, history, port, block) == Payload(history[i].mem, history[i].pif + port)
  {
    var n := |history| - 1;
    if i < n {
      hide Stores, Payload;
      LastWrittenAt(start, history[..n], port, block, i);
    }
  }

  lemma {:induction false} LastSavedAt(start: Wire, history: seq<Event>, port: nat, block: nat, i: nat, f: nat)
    requires Sound(start) && (forall e :: e in history ==> WellFormed(e)) && port < PORTS && block < BLOCK_DETECT
    requires i < f < |history| && Stores(history[i], port, block) && Untouched(history, port, block, i, f)
    requires history[f].Flush? && port in history[f].ports
    requires forall j :: f < j < |history| && history[j].Flush? ==> port !in history[j].ports
    ensures LastSaved(start, history, port, block) == Payload(history[i].mem, history[i].pif + port)
  {
    var n := |history| - 1;
    hide Stores, Payload;
    if f < n {
      LastSavedAt(start, history[..n], port, block, i, f);
    } else {
      LastWrittenAt(start, history[..n], port, block, i);
    }
  }

  /** What event `i` wrote is what the cell holds while nothing writes to it again and nothing restarts. */
  lemma WriteStays(start: Wire, history: seq<Event>, port: nat, block: nat, i: nat)
    requires Sound(start) && (forall e :: e in history ==> WellFormed(e)) && port < PORTS && block <= BLOCK_DETECT
    requires i < |history| && Stores(history[i], port, block)
    requires forall j :: i < j < |history| ==> !history[j].Restart? && !Stores(history[j], port, block)
    ensures Cell(Run(start, history), port, block) == Payload(history[i].mem, history[i].pif + port)
  {
    hide Stores, Payload, Cell, Run, Sound;
    RunIsMap(start, history, port, block);
    LastWrittenAt(start, history, port, block, i);
  }

  /**
    What event `i` wrote and event `f` flushed is what a restart brings back, whatever has been written
    since, until the port is flushed again.
   */
  lemma FlushedWriteSurvives(start: Wire, history: seq<Event>, port: nat, block: nat, i: nat, f: nat)
    requires Sound(start) && (forall e :: e in history ==> WellFormed(e)) && port < PORTS && block < BLOCK_DETECT
    requires i < f < |history| && Stores(history[i], port, block)
    requires forall j :: i < j < f ==> !history[j].Restart? && !Stores(history[j], port, block)
    requires history[f].Flush? && port in history[f].ports
    requires forall j :: f < j < |history| && history[j].Flush? ==> port !in history[j].ports
    ensures Cell(Run(start, history + [Restart]), port, block) == Payload(history[i].mem, history[i].pif + port)
  {
    var all := history + [Restart];
    assert all[..|history|] == history && all[|history|] == Restart;
    hide Stores, Payload, Cell, SavedCell, Step, Sound;
    RunIsMap(start, history, port, block);
    RestartMovesCells(Run(start, history), port, block);
    LastSavedAt(start, history, port, block, i, f);
    assert Run(start, all) == Step(Run(start, history), Restart);
  }
}
