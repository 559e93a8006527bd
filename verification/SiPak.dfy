/**
  The joybus wire: recognising the one command block the game packed into the PIF area,
  answering it in place, and what a whole run of such frames amounts to.

  RDRAM is one array of bytes in the game's order; the PIF area starts at `pif` in it.
 */
module SiPak {
  import opened Bytes
  import opened Wrappers
  import opened ControllerPak
  import DataCrc

  const CMD_READ_PAK := 2
  const CMD_WRITE_PAK := 3
  /** The identify and bank-select register, one block above the storage. */
  const BLOCK_DETECT := 0x400
  const PIF_SIZE := 64

  // ----- Frames -----

  datatype Request = Status(channel: nat) | Pak(channel: nat, write: bool)

  predicate ZeroFiller(mem: seq<byte>, pif: nat, channel: nat)
    requires pif + channel <= |mem|
  {
    forall i :: pif <= i < pif + channel ==> mem[i] == 0
  }

  /** A status query: no leading dummy byte. */
  predicate IsShort(mem: seq<byte>, base: nat)
    requires base + 3 <= |mem|
  {
    mem[base] == 0x01 && mem[base + 1] == 0x03 && mem[base + 2] == 0
  }

  /** A pak transfer: a dummy byte, then the command triple. */
  predicate IsLong(mem: seq<byte>, base: nat, write: bool)
    requires base + 4 <= |mem|
  {
    mem[base] == 0xFF
    && if write then mem[base + 3] == CMD_WRITE_PAK && mem[base + 1] == 0x23 && mem[base + 2] == 0x01
    else mem[base + 3] == CMD_READ_PAK && mem[base + 1] == 0x03 && mem[base + 2] == 0x21
  }

  /** The PIF area holds request `r`: zero filler up to its channel, then its block. */
  predicate Holds(mem: seq<byte>, pif: nat, r: Request)
    requires pif + PIF_SIZE <= |mem|
  {
    r.channel < PORTS && ZeroFiller(mem, pif, r.channel)
    && if r.Status? then IsShort(mem, pif + r.channel) else IsLong(mem, pif + r.channel, r.write)
  }

  /** The search from `channel` on, which gives up at the first filler byte that is not zero. */
  function RecogniseFrom(mem: seq<byte>, pif: nat, channel: nat): (r: Option<Request>)
    requires pif + PIF_SIZE <= |mem|
    ensures r.Some? ==> channel <= r.value.channel < PORTS
    decreases PORTS - channel
  {
    if channel >= PORTS || !ZeroFiller(mem, pif, channel) then None
    else if IsShort(mem, pif + channel) then Some(Status(channel))
    else if IsLong(mem, pif + channel, false) then Some(Pak(channel, false))
    else if IsLong(mem, pif + channel, true) then Some(Pak(channel, true))
    else RecogniseFrom(mem, pif, channel + 1)
  }

  function Recognise(mem: seq<byte>, pif: nat): (r: Option<Request>)
    requires pif + PIF_SIZE <= |mem|
    ensures r.Some? ==> r.value.channel < PORTS
  {
    RecogniseFrom(mem, pif, 0)
  }

  lemma {:induction false} RecogniseFromExact(mem: seq<byte>, pif: nat, channel: nat, r: Request)
    requires pif + PIF_SIZE <= |mem|
    ensures RecogniseFrom(mem, pif, channel) == Some(r) <==> Holds(mem, pif, r) && r.channel >= channel
    decreases PORTS - channel
  {
    if channel < PORTS {
      RecogniseFromExact(mem, pif, channel + 1, r);
      if r.channel > channel && Holds(mem, pif, r) {
        assert mem[pif + channel] == 0;
      }
    }
  }

  /**
    Recognition is exact: the search finds a request if and only if the area holds it.  So no
    area holds two requests, and giving up early loses none.
   */
  lemma RecogniseExact(mem: seq<byte>, pif: nat, r: Request)
    requires pif + PIF_SIZE <= |mem|
    ensures Recognise(mem, pif) == Some(r) <==> Holds(mem, pif, r)
  {
    RecogniseFromExact(mem, pif, 0, r);
  }

  /** The three shapes on the wire, byte by byte, `c` zeros before each. */
  lemma RecognisedByBytes(mem: seq<byte>, pif: nat, c: nat)
    requires pif + PIF_SIZE <= |mem| && c < 4
    ensures Recognise(mem, pif) == Some(Status(c))
       <==> (forall i :: pif <= i < pif + c ==> mem[i] == 0) && mem[pif + c] == 0x01 && mem[pif + c + 1] == 0x03 && mem[pif + c + 2] == 0
    ensures Recognise(mem, pif) == Some(Pak(c, false))
       <==> && (forall i :: pif <= i < pif + c ==> mem[i] == 0)
            && mem[pif + c] == 0xFF && mem[pif + c + 1] == 0x03 && mem[pif + c + 2] == 0x21 && mem[pif + c + 3] == 0x02
    ensures Recognise(mem, pif) == Some(Pak(c, true))
       <==> && (forall i :: pif <= i < pif + c ==> mem[i] == 0)
            && mem[pif + c] == 0xFF && mem[pif + c + 1] == 0x23 && mem[pif + c + 2] == 0x01 && mem[pif + c + 3] == 0x03
  {
    RecogniseExact(mem, pif, Status(c));
    RecogniseExact(mem, pif, Pak(c, false));
    RecogniseExact(mem, pif, Pak(c, true));
    hide Recognise;
  }

  // ----- Packing, as the game does it -----

  function Filler(n: nat): seq<byte> { seq(n, _ => 0) }

  function PackStatus(channel: nat): seq<byte> { Filler(channel) + [0x01, 0x03, 0x00] }

  function PackRead(channel: nat, high: byte, low: byte): seq<byte> {
    Filler(channel) + [0xFF, 0x03, 0x21, CMD_READ_PAK, high, low]
  }

  function PackWrite(channel: nat, high: byte, low: byte, data: seq<byte>): seq<byte> {
    Filler(channel) + [0xFF, 0x23, 0x01, CMD_WRITE_PAK, high, low] + data
  }

  /** The block number in a pak request: the address halfword without its five CRC bits. */
  function BlockNumber(mem: seq<byte>, base: nat): nat
    requires base + 6 <= |mem|
  {
    ((mem[base + 4] as int) * 0x100 + mem[base + 5] as int) / 0x20
  }

  function Payload(mem: seq<byte>, base: nat): (data: seq<byte>)
    requires base + 6 + BLOCK_SIZE <= |mem|
    ensures |data| == BLOCK_SIZE
  {
    mem[base + 6..base + 6 + BLOCK_SIZE]
  }

  lemma StatusRoundTrip(mem: seq<byte>, pif: nat, channel: nat)
    requires pif + PIF_SIZE <= |mem| && channel < PORTS
    requires PackStatus(channel) <= mem[pif..]
    ensures Recognise(mem, pif) == Some(Status(channel))
  {
    var packed := PackStatus(channel);
    assert forall k :: 0 <= k < |packed| ==> mem[pif + k] == mem[pif..][k] == packed[k];
    RecogniseExact(mem, pif, Status(channel));
  }

  lemma ReadRoundTrip(mem: seq<byte>, pif: nat, channel: nat, high: byte, low: byte)
    requires pif + PIF_SIZE <= |mem| && channel < PORTS
    requires PackRead(channel, high, low) <= mem[pif..]
    ensures Recognise(mem, pif) == Some(Pak(channel, false))
    ensures BlockNumber(mem, pif + channel) == (high * 0x100 + low as int) / 0x20
  {
    var packed := PackRead(channel, high, low);
    assert forall k :: 0 <= k < |packed| ==> mem[pif + k] == mem[pif..][k] == packed[k];
    RecogniseExact(mem, pif, Pak(channel, false));
  }

  lemma WriteRoundTrip(mem: seq<byte>, pif: nat, channel: nat, high: byte, low: byte, data: seq<byte>)
    requires pif + PIF_SIZE <= |mem| && channel < PORTS && |data| == BLOCK_SIZE
    requires PackWrite(channel, high, low, data) <= mem[pif..]
    ensures Recognise(mem, pif) == Some(Pak(channel, true))
    ensures BlockNumber(mem, pif + channel) == (high * 0x100 + low as int) / 0x20
    ensures Payload(mem, pif + channel) == data
  {
    var packed := PackWrite(channel, high, low, data);
    assert forall k :: 0 <= k < |packed| ==> mem[pif + k] == mem[pif..][k] == packed[k];
    RecogniseExact(mem, pif, Pak(channel, true));
    forall k | 0 <= k < BLOCK_SIZE ensures Payload(mem, pif + channel)[k] == data[k] {
      assert packed[channel + 6 + k] == data[k];
    }
  }

  // ----- Answering a frame -----

  /** Everything behind the wire: the store and the four identify cells. */
  datatype Wire = Wire(store: Store, detect: seq<seq<byte>>) {
    predicate Shaped() {
      store.Shaped() && |detect| == PORTS && forall p :: 0 <= p < PORTS ==> |detect[p]| == BLOCK_SIZE
    }
  }

  function Blank(): seq<byte> { seq(BLOCK_SIZE, _ => 0) }

  /** The answer to one frame: what is behind the wire afterwards, and the memory with the reply in it. */
  datatype Answer = Answer(wire: Wire, mem: seq<byte>)

  function StatusReply(mem: seq<byte>, base: nat, port: nat): (r: seq<byte>)
    requires base + 6 <= |mem|
    ensures |r| == |mem|
  {
    mem[base + 3 := 0x05][base + 4 := 0x00][base + 5 := if port == 0 then 0x01 else 0x00]
  }

  /** A read reply carries the data and its CRC, a write reply the CRC alone. */
  function PakReply(mem: seq<byte>, base: nat, write: bool, data: seq<byte>): (r: seq<byte>)
    requires base + 0x27 <= |mem| && |data| == BLOCK_SIZE
    ensures |r| == |mem|
  {
    (if write then mem else Overwritten(mem, base + 6, data))[base + 0x26 := DataCrc.Crc(data)]
  }

  /** The data a pak request moves: its own payload, or what the addressed block reads as. */
  function Carried(w: Wire, port: nat, block: nat, write: bool, payload: seq<byte>): (data: seq<byte>)
    requires w.Shaped() && port < PORTS && |payload| == BLOCK_SIZE
    ensures |data| == BLOCK_SIZE
  {
    if write then payload
    else if block == BLOCK_DETECT then w.detect[port]
    else if block < BLOCK_DETECT then BlockOf(Live(w.store, port), block)
    else Blank()
  }

  function AfterPak(w: Wire, port: nat, block: nat, write: bool, payload: seq<byte>, writable: bool): (v: Wire)
    requires w.Shaped() && port < PORTS && |payload| == BLOCK_SIZE
    ensures v.Shaped()
  {
    if block == BLOCK_DETECT then if write then w.(detect := w.detect[port := payload]) else w
    else if block < BLOCK_DETECT then
      w.(store := if write then AfterWrite(w.store, port, block, payload, writable)
      else AfterRead(w.store, port, block, writable))
    else w
  }

  function AnswerPak(w: Wire, mem: seq<byte>, base: nat, port: nat, write: bool, writable: bool): (a: Answer)
    requires w.Shaped() && base + 0x27 <= |mem| && port < PORTS
    ensures a.wire.Shaped() && |a.mem| == |mem|
  {
    var block := BlockNumber(mem, base);
    var payload := Payload(mem, base);
    Answer(AfterPak(w, port, block, write, payload, writable),
           PakReply(mem, base, write, Carried(w, port, block, write, payload)))
  }

  function Served(w: Wire, mem: seq<byte>, pif: nat, writable: bool): (a: Answer)
    requires w.Shaped() && pif + PIF_SIZE <= |mem|
    ensures a.wire.Shaped() && |a.mem| == |mem|
  {
    match Recognise(mem, pif)
    case None => Answer(w, mem)
    case Some(Status(c)) =>
      Answer(w, StatusReply(mem, pif + c, c))
    case Some(Pak(c, write)) => AnswerPak(w, mem, pif + c, c, write, writable)
  }

  lemma OverwrittenSnoc(mem: seq<byte>, at: nat, data: seq<byte>, i: nat)
    requires at + |data| <= |mem| && i < |data|
    ensures Overwritten(mem, at, data[..i + 1]) == Overwritten(mem, at, data[..i])[at + i := data[i]]
  {
  }

  // ----- The port's code -----

  class SiBus {
    const pak: PakStore
    var detect: seq<seq<byte>>
    /** The SI completions posted. */
    var completions: nat

    function State(): Wire reads this, pak { Wire(pak.State(), detect) }

    predicate Valid() reads this, pak { State().Shaped() }

    constructor (store: PakStore)
      requires store.Valid()
      ensures Valid() && pak == store && State() == Wire(store.State(), [Blank(), Blank(), Blank(), Blank()])
      ensures completions == 0
    {
      pak := store;
      detect := [Blank(), Blank(), Blank(), Blank()];
      completions := 0;
    }

    /** The transfer behind the wire: `data` comes in as the payload or blank, and leaves as what moved. */
    method Transfer(port: nat, block: nat, isWrite: bool, payload: seq<byte>, writable: bool) returns (data: seq<byte>)
      requires Valid() && port < PORTS && |payload| == BLOCK_SIZE
      modifies this`detect, pak
      ensures Valid() && State() == AfterPak(old(State()), port, block, isWrite, payload, writable)
      ensures data == Carried(old(State()), port, block, isWrite, payload)
    {
      hide EmptyImage;
      data := if isWrite then payload else Blank();
      if block == BLOCK_DETECT {
        if isWrite {
          detect := detect[port := data];
        } else {
          data := detect[port];
        }
      } else if block < BLOCK_DETECT {
        if isWrite {
          var ok := pak.WriteBlock(port, block, data, writable);
        } else {
          var out := pak.ReadBlock(port, block, writable);
          data := out.value;
        }
      }
    }

    /** The read data, byte by byte. */
    method CopyIn(rdram: array<byte>, at: nat, data: seq<byte>)
      requires at + |data| <= rdram.Length
      modifies rdram
      ensures rdram[..] == Overwritten(old(rdram[..]), at, data)
    {
      ghost var before := rdram[..];
      for i := 0 to |data|
        invariant rdram[..] == Overwritten(before, at, data[..i])
      {
        OverwrittenSnoc(before, at, data, i);
        hide Overwritten;
        rdram[at + i] := data[i];
      }
      assert data[..|data|] == data;
    }

    method Reply(rdram: array<byte>, base: nat, isWrite: bool, data: seq<byte>)
      requires base + 0x27 <= rdram.Length && |data| == BLOCK_SIZE
      modifies rdram
      ensures rdram[..] == PakReply(old(rdram[..]), base, isWrite, data)
    {
      hide DataCrc.Crc;
      if !isWrite {
        CopyIn(rdram, base + 6, data);
      }
      var crc := DataCrc.ComputeCrc(data);
      rdram[base + 0x26] := crc;
    }

    method HandlePakBlock(rdram: array<byte>, base: nat, port: nat, cmd: byte, writable: bool)
      requires Valid() && port < PORTS && base + 0x27 <= rdram.Length
      modifies this`detect, pak, rdram
      ensures Valid()
      ensures Answer(State(), rdram[..])
           == AnswerPak(old(State()), old(rdram[..]), base, port, cmd == CMD_WRITE_PAK, writable)
    {
      hide AfterPak, Carried, PakReply;
      var address := (rdram[base + 4] as int) * 0x100 + rdram[base + 5] as int;
      var isWrite := cmd == CMD_WRITE_PAK;
      var data := Transfer(port, address / 0x20, isWrite, rdram[base + 6..base + 6 + BLOCK_SIZE], writable);
      Reply(rdram, base, isWrite, data);
    }

    method HandleStatus(rdram: array<byte>, base: nat, port: nat)
      requires base + 6 <= rdram.Length
      modifies rdram
      ensures rdram[..] == StatusReply(old(rdram[..]), base, port)
    {
      var hasPak := port == 0;
      rdram[base + 3] := 0x05;
      rdram[base + 4] := 0x00;
      rdram[base + 5] := if hasPak then 0x01 else 0x00;
    }

    method FillerIsZero(rdram: array<byte>, pif: nat, channel: nat) returns (ok: bool)
      requires pif + channel <= rdram.Length
      ensures ok == ZeroFiller(rdram[..], pif, channel)
    {
      for i := 0 to channel
        invariant ZeroFiller(rdram[..], pif, i)
      {
        if rdram[pif + i] != 0x00 {
          return false;
        }
      }
      ok := true;
    }

    /** Walk the PIF area looking for the one block the game just packed. */
    method FindFrame(rdram: array<byte>, pif: nat) returns (found: Option<Request>)
      requires pif + PIF_SIZE <= rdram.Length
      ensures found == Recognise(rdram[..], pif)
    {
      var channel: nat := 0;
      while channel < 4
        invariant channel <= 4
        invariant Recognise(rdram[..], pif) == RecogniseFrom(rdram[..], pif, channel)
      {
        var fillerOk := FillerIsZero(rdram, pif, channel);
        if !fillerOk {
          break;
        }
        var base := pif + channel;
        if rdram[base] == 0x01 && rdram[base + 1] == 0x03 && rdram[base + 2] == 0 {
          return Some(Status(channel));
        }
        var cmd := rdram[base + 3];
        if rdram[base] == 0xFF
           && ((cmd == CMD_READ_PAK && rdram[base + 1] == 0x03 && rdram[base + 2] == 0x21)
               || (cmd == CMD_WRITE_PAK && rdram[base + 1] == 0x23 && rdram[base + 2] == 0x01)) {
          return Some(Pak(channel, cmd == CMD_WRITE_PAK));
        }
        channel := channel + 1;
      }
      found := None;
    }

    /** Find the frame and answer it in place. */
    method ServiceFrame(rdram: array<byte>, pif: nat, writable: bool) returns (served: bool)
      requires Valid() && pif + PIF_SIZE <= rdram.Length
      modifies this`detect, pak, rdram
      ensures Valid() && Answer(State(), rdram[..]) == Served(old(State()), old(rdram[..]), pif, writable)
      ensures served <==> Recognise(old(rdram[..]), pif).Some?
    {
      hide Recognise, AnswerPak;
      var found := FindFrame(rdram, pif);
      match found
      case None =>
        served := false;
      case Some(Status(channel)) =>
        HandleStatus(rdram, pif + channel, channel);
        served := true;
      case Some(Pak(channel, write)) =>
        HandlePakBlock(rdram, pif + channel, channel, if write then CMD_WRITE_PAK else CMD_READ_PAK, writable);
        served := true;
    }

    /**
      The transfer itself: only the read half, and only a plausible address, serves the frame; both
      halves post a completion.
     */
    method RawStartDma(rdram: array<byte>, r4: word, r5: word, writable: bool) returns (r2: word)
      requires Valid() && rdram.Length >= 0x80_0000 + PIF_SIZE
      modifies this, pak, rdram
      ensures Valid() && r2 == 0 && completions == old(completions) + 1
      ensures var pif := r5 - 0x8000_0000;
              Answer(State(), rdram[..]) ==
              if r4 == 0 && 0 <= pif < 0x80_0000 then Served(old(State()), old(rdram[..]), pif, writable)
              else Answer(old(State()), old(rdram[..]))
    {
      var linear := if r5 >= 0x8000_0000 then r5 - 0x8000_0000 else r5 + 0x8000_0000;
      var usable := linear < 0x80_0000;
      if r4 == 0 && usable {
        var served := ServiceFrame(rdram, linear, writable);
      }
      completions := completions + 1;
      r2 := 0;
    }
  }
}
