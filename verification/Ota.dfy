/** The stop-and-wait firmware update over UART: BEGIN, DATA, COMMIT and ABORT
    against a storage that may fail any single operation. */
module Ota {
  import opened Text
  import opened Bytes
  import opened Crc32

  const LIMIT := 480 * 1024

  // ---- Lines ----

  datatype Line =
    | NotOta
    | BadArg
    | Cap
    | BeginBadArg
    | BeginBadSize
    | Begin(size: nat, crc: bv32)
    | BadData
    | Data(offset: nat, bytes: seq<bv8>)
    | Commit
    | Abort

  function Hex(s: string): (v: Option<nat>)
    ensures v.Some? ==> v.value < 0x1_0000_0000
  {
    Pow16Values();
    HexToken(s, 8)
  }

  /** The bytes written as pairs of hexadecimal digits. */
  function PairBytes(s: string): (r: Option<seq<bv8>>)
    requires |s| % 2 == 0
    ensures r.Some? ==> |r.value| == |s| / 2
  {
    if s == "" then Some([]) else
      Pow16Values();
      match (HexToken(s[..2], 2), PairBytes(s[2..]))
      case (Some(v), Some(rest)) => Some([v as bv8] + rest)
      case _ => None
  }

  predicate ValidSize(size: nat) { 256 <= size <= LIMIT && size % 4 == 0 }

  predicate ValidPayload(payload: string) {
    payload != "" && |payload| <= 128 && |payload| % 8 == 0
  }

  function ParseBegin(args: seq<string>): Line {
    if |args| < 2 || Hex(args[0]).None? || Hex(args[1]).None? then BeginBadArg
    else if |args| > 2 || !ValidSize(Hex(args[0]).value) then BeginBadSize
    else Begin(Hex(args[0]).value, Hex(args[1]).value as bv32)
  }

  function ParseData(args: seq<string>): (l: Line)
    ensures l.Data? ==> 4 <= |l.bytes| <= 64 && |l.bytes| % 4 == 0
  {
    if |args| < 2 || Hex(args[0]).None? then BadData
    else if |args| > 2 || !ValidPayload(args[1]) then BadData
    else match PairBytes(args[1])
      case None => BadData
      case Some(bytes) => Data(Hex(args[0]).value, bytes)
  }

  function ParseTokens(toks: seq<string>): Line
    requires |toks| > 0
  {
    if toks[0] != "OTA" then NotOta
    else if |toks| == 1 then BadArg
    else if toks[1] == "BEGIN" then ParseBegin(toks[2..])
    else if toks[1] == "DATA" then ParseData(toks[2..])
    else if |toks| > 2 then BadArg
    else if toks[1] == "CAP" then Cap
    else if toks[1] == "COMMIT" then Commit
    else if toks[1] == "ABORT" then Abort
    else BadArg
  }

  function Parse(line: string): Line { ParseTokens(Split(line, ' ')) }

  // ---- Storage ----

  /** What the storage holds, and which of its operations succeed during one line. */
  datatype Dfu = Dfu(cells: seq<bv8>, writeOk: bool, unreadable: set<nat>, commitOk: bool) {
    ghost predicate Valid() { |cells| >= LIMIT }

    function Read(offset: nat, n: nat): (r: Option<seq<bv8>>)
      requires |cells| >= LIMIT
    {
      if offset + n > LIMIT || offset in unreadable then None else Some(cells[offset..offset + n])
    }

    /** Every 64-byte step of a read-back of the first size bytes succeeds. */
    predicate Readable(size: nat) {
      forall k :: 0 <= k < size && k % 64 == 0 ==> k !in unreadable
    }
  }

  datatype Effect = Quiet | Write(offset: nat, bytes: seq<bv8>, ok: bool) | Mark(ok: bool)

  // ---- The session ----

  datatype State = State(active: bool, size: nat, received: nat, expectedCrc: bv32)

  const IDLE := State(false, 0, 0, 0)

  predicate Sound(s: State) {
    s.active ==> ValidSize(s.size) && s.received <= s.size && s.received % 4 == 0
  }

  function Aborted(s: State): State { s.(active := false, received := 0) }

  /** The first eight bytes of an image: initial stack pointer, then the Thumb reset address. */
  predicate ValidVector(head: seq<bv8>, size: nat)
    requires |head| == 8
  {
    var sp, reset := Le32(head[..4]), Le32(head[4..]);
    && 0x20000000 <= sp <= 0x20040000 && sp % 8 == 0
    && reset % 2 == 1 && 0x7100 <= reset - 1 < 0x7000 + size
  }

  datatype Outcome = Outcome(state: State, reply: string, reboot: bool, effect: Effect)

  function Say(s: State, reply: string): Outcome { Outcome(s, reply, false, Quiet) }

  function OnData(s: State, d: Dfu, offset: nat, bytes: seq<bv8>): Outcome
    requires Sound(s) && s.active && d.Valid()
  {
    var n := |bytes|;
    if offset + n > s.size then Say(s, "ERR OFFSET\r\n")
    else if offset < s.received then
      Say(s, if offset + n <= s.received && d.Read(offset, n) == Some(bytes) then "OK\r\n" else "ERR OFFSET\r\n")
    else if offset != s.received then Say(s, "ERR OFFSET\r\n")
    else if offset == 0 && (n < 8 || !ValidVector(bytes[..8], s.size)) then Say(s, "ERR VECTOR\r\n")
    else if !d.writeOk then Outcome(Aborted(s), "ERR WRITE\r\n", false, Write(offset, bytes, false))
    else Outcome(s.(received := s.received + n), "OK\r\n", false, Write(offset, bytes, true))
  }

  function OnCommit(s: State, d: Dfu): Outcome
    requires Sound(s) && d.Valid()
  {
    if !s.active || s.received != s.size then Say(s, "ERR INCOMPLETE\r\n")
    else if !d.Readable(s.size) then Say(Aborted(s), "ERR READ\r\n")
    else if ImageCrc(d.cells[..s.size]) != s.expectedCrc then Say(Aborted(s), "ERR CRC\r\n")
    else if !d.commitOk then Outcome(Aborted(s), "ERR MARK\r\n", false, Mark(false))
    else Outcome(s.(active := false), "REBOOT\r\n", true, Mark(true))
  }

  /** The answer to one parsed line. */
  function Respond(s: State, d: Dfu, line: Line): Outcome
    requires Sound(s) && d.Valid()
  {
    match line
    case NotOta => Say(s, "ERR CMD\r\n")
    case BadArg => Say(s, "ERR ARG\r\n")
    case Cap => Say(s, "OTA UART1 BLOCK64 CRC32\r\n")
    case BeginBadArg => Say(s, "ERR ARG\r\n")
    case BeginBadSize => Say(s, "ERR SIZE\r\n")
    case Begin(size, crc) => Say(State(true, size, 0, crc), "READY\r\n")
    case BadData => Say(s, if s.active then "ERR ARG\r\n" else "ERR NOIMAGE\r\n")
    case Data(offset, bytes) => if s.active then OnData(s, d, offset, bytes) else Say(s, "ERR NOIMAGE\r\n")
    case Commit => OnCommit(s, d)
    case Abort => Say(Aborted(s), "ABORTED\r\n")
  }

  function CellsAfter(cells: seq<bv8>, e: Effect): (r: seq<bv8>)
    ensures |r| == |cells|
  {
    if e.Write? && e.ok && e.offset + |e.bytes| <= |cells| then Overwrite(cells, e.offset, e.bytes) else cells
  }

  // ---- The same, as the stateful code of the firmware ----

  class Storage {
    var cells: seq<bv8>
    var writeOk: bool
    var unreadable: set<nat>
    var commitOk: bool
    var effects: seq<Effect>

    ghost function Value(): Dfu
      reads this
    {
      Dfu(cells, writeOk, unreadable, commitOk)
    }

    constructor (cells: seq<bv8>, writeOk: bool, unreadable: set<nat>, commitOk: bool)
      ensures Value() == Dfu(cells, writeOk, unreadable, commitOk) && effects == []
    {
      this.cells, this.writeOk, this.unreadable, this.commitOk := cells, writeOk, unreadable, commitOk;
      effects := [];
    }

    method WriteBytes(offset: nat, bytes: seq<bv8>) returns (ok: bool)
      requires Value().Valid() && offset + |bytes| <= LIMIT
      modifies this`cells, this`effects
      ensures ok == writeOk && effects == old(effects) + [Write(offset, bytes, ok)]
      ensures cells == if ok then Overwrite(old(cells), offset, bytes) else old(cells)
    {
      ok := writeOk;
      effects := effects + [Write(offset, bytes, ok)];
      if ok { cells := Overwrite(cells, offset, bytes); }
    }

    method ReadBytes(offset: nat, n: nat) returns (r: Option<seq<bv8>>)
      requires Value().Valid()
      ensures r == Value().Read(offset, n)
    {
      if offset + n > LIMIT || offset in unreadable { return None; }
      r := Some(cells[offset..offset + n]);
    }

    method MarkUpdated() returns (ok: bool)
      modifies this`effects
      ensures ok == commitOk && effects == old(effects) + [Mark(ok)]
    {
      ok := commitOk;
      effects := effects + [Mark(ok)];
    }
  }

  class Session {
    var active: bool
    var size: nat
    var received: nat
    var expectedCrc: bv32

    ghost function Value(): State
      reads this
    {
      State(active, size, received, expectedCrc)
    }

    constructor ()
      ensures Value() == IDLE
    {
      active, size, received, expectedCrc := false, 0, 0, 0;
    }

    method AbortSession()
      modifies this`active, this`received
      ensures Value() == Aborted(old(Value()))
    {
      active, received := false, 0;
    }

    /** The read-back of COMMIT, 64 bytes at a time. */
    method ReadBackCrc(storage: Storage) returns (crc: Option<bv32>)
      requires storage.Value().Valid() && size <= LIMIT
      ensures crc == if storage.Value().Readable(size) then Some(Crc(0xffffffff, storage.cells[..size])) else None
    {
      hide Crc;
      var register: bv32 := 0xffffffff;
      var offset := 0;
      assert storage.cells[..0] == [] && Crc(0xffffffff, []) == 0xffffffff by { CrcOfNothing(0xffffffff); }
      while offset < size
        invariant offset % 64 == 0 || offset == size
        invariant offset <= size
        invariant register == Crc(0xffffffff, storage.cells[..offset])
        invariant forall k :: 0 <= k < offset && k % 64 == 0 ==> k !in storage.unreadable
      {
        var n := if size - offset < 64 then size - offset else 64;
        var bytes := storage.ReadBytes(offset, n);
        if bytes == None { return None; }
        CrcConcat(0xffffffff, storage.cells[..offset], bytes.value);
        assert storage.cells[..offset + n] == storage.cells[..offset] + bytes.value;
        register := CrcUpdate(register, bytes.value);
        offset := offset + n;
      }
      crc := Some(register);
    }

    method Handle(line: string, storage: Storage) returns (reply: string, reboot: bool)
      requires Sound(Value()) && storage.Value().Valid()
      modifies this, storage`cells, storage`effects
      ensures var out := Respond(old(Value()), old(storage.Value()), Parse(line));
        && Value() == out.state && reply == out.reply && reboot == out.reboot
        && storage.effects == old(storage.effects) + (if out.effect.Quiet? then [] else [out.effect])
        && storage.cells == CellsAfter(old(storage.cells), out.effect)
    {
      reboot := false;
      match Parse(line) {
        case NotOta => reply := "ERR CMD\r\n";
        case BadArg => reply := "ERR ARG\r\n";
        case Cap => reply := "OTA UART1 BLOCK64 CRC32\r\n";
        case BeginBadArg => reply := "ERR ARG\r\n";
        case BeginBadSize => reply := "ERR SIZE\r\n";
        case Begin(newSize, crc) =>
          size, expectedCrc, received, active := newSize, crc, 0, true;
          reply := "READY\r\n";
        case BadData => reply := if active then "ERR ARG\r\n" else "ERR NOIMAGE\r\n";
        case Data(offset, bytes) =>
          if !active { return "ERR NOIMAGE\r\n", false; }
          reply := HandleData(offset, bytes, storage);
        case Commit =>
          reply, reboot := HandleCommit(storage);
        case Abort =>
          AbortSession();
          reply := "ABORTED\r\n";
      }
    }

    /** The vector table at the head of the image. */
    method CheckVector(bytes: seq<bv8>) returns (valid: bool)
      ensures valid == (|bytes| >= 8 && ValidVector(bytes[..8], size))
    {
      if |bytes| < 8 { return false; }
      var sp, reset := Le32(bytes[..4]), Le32(bytes[4..8]);
      assert bytes[..8][..4] == bytes[..4] && bytes[..8][4..] == bytes[4..8];
      hide Le32;
      valid := 0x20000000 <= sp <= 0x20040000 && sp % 8 == 0 && reset % 2 == 1
            && 0x7100 <= reset - reset % 2 < 0x7000 + size;
    }

    method HandleData(offset: nat, bytes: seq<bv8>, storage: Storage) returns (reply: string)
      requires Sound(Value()) && active && storage.Value().Valid()
      modifies this, storage`cells, storage`effects
      ensures var out := OnData(old(Value()), old(storage.Value()), offset, bytes);
        && Value() == out.state && reply == out.reply
        && storage.effects == old(storage.effects) + (if out.effect.Quiet? then [] else [out.effect])
        && storage.cells == CellsAfter(old(storage.cells), out.effect)
    {
      hide ValidVector;
      var n := |bytes|;
      if offset + n > size { return "ERR OFFSET\r\n"; }
      if offset < received {
        if offset + n > received { return "ERR OFFSET\r\n"; }
        var stored := storage.ReadBytes(offset, n);
        return if stored == Some(bytes) then "OK\r\n" else "ERR OFFSET\r\n";
      }
      if offset != received { return "ERR OFFSET\r\n"; }
      if offset == 0 {
        var valid := CheckVector(bytes);
        if !valid { return "ERR VECTOR\r\n"; }
      }
      var ok := storage.WriteBytes(offset, bytes);
      if !ok {
        AbortSession();
        return "ERR WRITE\r\n";
      }
      received := received + n;
      reply := "OK\r\n";
    }

    method HandleCommit(storage: Storage) returns (reply: string, reboot: bool)
      requires Sound(Value()) && storage.Value().Valid()
      modifies this, storage`effects
      ensures var out := OnCommit(old(Value()), storage.Value());
        && Value() == out.state && reply == out.reply && reboot == out.reboot
        && storage.effects == old(storage.effects) + (if out.effect.Quiet? then [] else [out.effect])
    {
      hide Crc, Complement;
      if !active || received != size { return "ERR INCOMPLETE\r\n", false; }
      var crc := ReadBackCrc(storage);
      if crc == None {
        AbortSession();
        return "ERR READ\r\n", false;
      }
      if Complement(crc.value) != expectedCrc {
        AbortSession();
        return "ERR CRC\r\n", false;
      }
      var ok := storage.MarkUpdated();
      if !ok {
        AbortSession();
        return "ERR MARK\r\n", false;
      }
      active := false;
      return "REBOOT\r\n", true;
    }
  }

  lemma CrcOfNothing(c: bv32)
    ensures Crc(c, []) == c
  {}
}
