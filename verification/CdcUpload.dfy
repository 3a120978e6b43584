/** The firmware upload over USB serial: packets of any length pass through a small staging
    buffer into the DFU partition in whole words. */
module CdcUpload {
  import opened Bytes

  const PARTITION := 484 * 1024
  const IMAGE_LIMIT := 480 * 1024
  const STAGING_SIZE := 68
  const PACKET_LIMIT := 64

  type Data = seq<bv8>

  datatype Upload = Upload(active: bool, size: nat, received: nat, staged: Data, image: bool)

  /** One packet, and the offsets at which the flash refuses to be written meanwhile. */
  datatype Arrival = Arrival(packet: Data, broken: set<nat>)

  predicate ArrivalsOk(arrivals: seq<Arrival>) {
    forall i :: 0 <= i < |arrivals| ==> |arrivals[i].packet| <= PACKET_LIMIT
  }

  /** The partition and the writes made to it, as offset and length. */
  datatype Dfu = Dfu(cells: Data, writes: seq<(nat, nat)>)

  function Aligned(n: nat): nat { n - n % 4 }

  predicate Accepts(d: Dfu, offset: nat, bytes: Data, broken: set<nat>) {
    offset !in broken && offset % 4 == 0 && |bytes| % 4 == 0 && offset + |bytes| <= |d.cells|
  }

  function Written(d: Dfu, offset: nat, bytes: Data): (r: Dfu)
    requires offset + |bytes| <= |d.cells|
    ensures |r.cells| == |d.cells|
  {
    Dfu(Overwrite(d.cells, offset, bytes), d.writes + [(offset, |bytes|)])
  }

  function Failure(): Upload { Upload(false, 0, 0, [], false) }

  function Padded(rest: Data): (r: Data)
    requires |rest| <= 4
    ensures |r| == 4 && r[..|rest|] == rest
  {
    rest + seq(4 - |rest|, i => 0xff as bv8)
  }

  /** The tail of an image that is not a whole word is written with padding. */
  function Finish(u: Upload, d: Dfu, broken: set<nat>): (Upload, Dfu, string)
    requires |u.staged| <= 3
  {
    if u.staged == [] then (u.(active := false, image := true), d, "OK\r\n")
    else if !Accepts(d, u.received, Padded(u.staged), broken) then (Failure(), d, "ERR WRITE\r\n")
    else (Upload(false, u.size, u.received + |u.staged|, [], true),
          Written(d, u.received, Padded(u.staged)), "OK\r\n")
  }

  function OnPacket(u: Upload, d: Dfu, packet: Data, broken: set<nat>): (Upload, Dfu, string)
  {
    var data := u.staged + packet;
    var n := Aligned(|data|);
    if n > 0 && !Accepts(d, u.received, data[..n], broken) then (Failure(), d, "ERR WRITE\r\n") else
      var stored := if n > 0 then Written(d, u.received, data[..n]) else d;
      var next := u.(received := u.received + n, staged := data[n..]);
      if next.received + |next.staged| < u.size then (next, stored, "") else Finish(next, stored, broken)
  }

  function Begin(size: nat): Upload { Upload(true, size, 0, [], false) }

  /** Packets go to the upload only as long as it lasts. */
  function Run(u: Upload, d: Dfu, arrivals: seq<Arrival>): (Upload, Dfu)
    decreases |arrivals|
  {
    if arrivals == [] || !u.active then (u, d) else
      var (next, stored, _) := OnPacket(u, d, arrivals[0].packet, arrivals[0].broken);
      Run(next, stored, arrivals[1..])
  }

  function Stream(arrivals: seq<Arrival>): Data {
    if arrivals == [] then [] else arrivals[0].packet + Stream(arrivals[1..])
  }

  /** Each write begins where the last one ended, the first at start; all are whole words. */
  predicate Chained(writes: seq<(nat, nat)>, start: nat, end: nat)
    decreases |writes|
  {
    if writes == [] then start == end
    else writes[0].0 == start && start % 4 == 0 && writes[0].1 % 4 == 0
         && Chained(writes[1..], start + writes[0].1, end)
  }

  lemma {:induction false} ChainGrows(writes: seq<(nat, nat)>, start: nat, end: nat, n: nat)
    requires Chained(writes, start, end) && start % 4 == 0 && n % 4 == 0
    ensures end % 4 == 0 && Chained(writes + [(end, n)], start, end + n)
    decreases |writes|
  {
    if writes == [] {
      assert (writes + [(end, n)])[1..] == [];
    } else {
      assert (writes + [(end, n)])[1..] == writes[1..] + [(end, n)];
      ChainGrows(writes[1..], start + writes[0].1, end, n);
    }
  }

  // ---- In step with the stream ----

  /** The upload goes on, and partition plus staging hold exactly what came so far. */
  ghost predicate InStep(u: Upload, d: Dfu, size: nat, stream: Data) {
    && u.active && !u.image && u.size == size && |d.cells| == PARTITION
    && |u.staged| <= 3 && u.received % 4 == 0
    && u.received + |u.staged| == |stream| < size
    && u.received <= |d.cells| && d.cells[..u.received] == stream[..u.received]
    && u.staged == stream[u.received..]
    && Chained(d.writes, 0, u.received)
  }

  /** The upload is complete: the image is in place and little more has been written. */
  ghost predicate Complete(u: Upload, d: Dfu, size: nat, stream: Data) {
    && !u.active && u.image && |d.cells| == PARTITION
    && size <= |stream| && size <= |d.cells| && d.cells[..size] == stream[..size]
    && exists end: nat :: end <= size + 66 && Chained(d.writes, 0, end)
  }

  lemma WrittenPrefix(d: Dfu, offset: nat, bytes: Data, stream: Data)
    requires offset + |bytes| <= |d.cells| && offset <= |stream| && d.cells[..offset] == stream[..offset]
    requires Chained(d.writes, 0, offset) && |bytes| % 4 == 0
    requires offset + |bytes| <= |stream| ==> bytes == stream[offset..offset + |bytes|]
    requires offset + |bytes| > |stream| ==> bytes[..|stream| - offset] == stream[offset..]
    ensures var r, m := Written(d, offset, bytes), if offset + |bytes| <= |stream| then offset + |bytes| else |stream|;
      r.cells[..m] == stream[..m] && Chained(r.writes, 0, offset + |bytes|)
  {
    var r := Written(d, offset, bytes);
    var m := if offset + |bytes| <= |stream| then offset + |bytes| else |stream|;
    ChainGrows(d.writes, 0, offset, |bytes|);
    forall i | 0 <= i < m ensures r.cells[..m][i] == stream[..m][i] {
      if i < offset {
        assert r.cells[i] == d.cells[..offset][i] == stream[..offset][i];
      } else if offset + |bytes| <= |stream| {
        assert r.cells[i] == bytes[i - offset];
      } else {
        assert r.cells[i] == bytes[..|stream| - offset][i - offset];
      }
    }
  }

  lemma FinishCompletes(u: Upload, d: Dfu, size: nat, stream: Data, broken: set<nat>)
    requires 0 < size <= IMAGE_LIMIT && |d.cells| == PARTITION && u.size == size && u.active && !u.image
    requires |u.staged| <= 3 && u.received % 4 == 0 && u.received + |u.staged| == |stream|
    requires size <= |stream| < size + PACKET_LIMIT
    requires d.cells[..u.received] == stream[..u.received] && u.staged == stream[u.received..]
    requires Chained(d.writes, 0, u.received)
    ensures var (v, e, reply) := Finish(u, d, broken);
      && |e.cells| == PARTITION
      && (v == Failure() || Complete(v, e, size, stream))
      && (v == Failure() ==> u.received in broken)
      && reply == if v == Failure() then "ERR WRITE\r\n" else "OK\r\n"
  {
    var (v, e, _) := Finish(u, d, broken);
    if u.staged == [] {
      assert d.cells[..size] == d.cells[..u.received][..size];
      assert u.received <= size + 66;
    } else if v != Failure() {
      WrittenPrefix(d, u.received, Padded(u.staged), stream);
      assert e.cells[..size] == e.cells[..|stream|][..size];
      assert stream[..|stream|][..size] == stream[..size];
      assert u.received + 4 <= size + 66;
    }
  }

  /** The end of an upload byte by byte: every byte that came is stored, the rest of its last
      word is 0xff as in erased flash, and what lies behind stays as it was. */
  lemma FinishPads(u: Upload, d: Dfu, stream: Data, broken: set<nat>, i: nat)
    requires |d.cells| == PARTITION && |u.staged| <= 3 && u.received % 4 == 0
    requires u.received + |u.staged| == |stream| <= PARTITION && i < PARTITION
    requires d.cells[..u.received] == stream[..u.received] && u.staged == stream[u.received..]
    ensures var (v, e, _) := Finish(u, d, broken);
      v != Failure() ==>
        && |e.cells| == PARTITION
        && (i < |stream| ==> e.cells[i] == stream[i])
        && (|stream| <= i < (|stream| + 3) / 4 * 4 ==> e.cells[i] == 0xff)
        && (i >= (|stream| + 3) / 4 * 4 ==> e.cells[i] == d.cells[i])
  {
    var (v, e, _) := Finish(u, d, broken);
    if i < u.received { assert d.cells[..u.received][i] == stream[..u.received][i]; }
    if u.staged != [] && v != Failure() {
      OverwriteAt(d.cells, u.received, Padded(u.staged), i);
    }
  }

  /** The words of the staged data go behind the stored prefix. */
  lemma StoreKeepsPrefix(d: Dfu, received: nat, data: Data, more: Data)
    requires |d.cells| == PARTITION && received % 4 == 0 && received + |data| == |more| <= PARTITION
    requires d.cells[..received] == more[..received] && data == more[received..]
    requires Chained(d.writes, 0, received)
    ensures var n := Aligned(|data|); var e := if n > 0 then Written(d, received, data[..n]) else d;
      && n % 4 == 0 && |data| - n <= 3 && |e.cells| == PARTITION
      && e.cells[..received + n] == more[..received + n] && data[n..] == more[received + n..]
      && Chained(e.writes, 0, received + n)
  {
    var n := Aligned(|data|);
    if n > 0 {
      assert data[..n] == more[received..received + n];
      WrittenPrefix(d, received, data[..n], more);
    }
  }

  /** One packet keeps step, completes the upload, or meets a refused write and ends it. */
  lemma PacketKeepsStep(u: Upload, d: Dfu, size: nat, stream: Data, packet: Data, broken: set<nat>)
    requires 0 < size <= IMAGE_LIMIT && |packet| <= PACKET_LIMIT && InStep(u, d, size, stream)
    ensures var (v, e, reply) := OnPacket(u, d, packet, broken); var more := stream + packet;
      && |e.cells| == PARTITION
      && (if v == Failure() then broken != {} && reply == "ERR WRITE\r\n"
          else if |more| < size then InStep(v, e, size, more) && reply == ""
          else Complete(v, e, size, more) && reply == "OK\r\n")
  {
    hide Finish, Written, Chained, Complete;
    var data, more := u.staged + packet, stream + packet;
    var n := Aligned(|data|);
    assert data == more[u.received..];
    assert d.cells[..u.received] == more[..u.received] by { assert stream[..u.received] == more[..u.received]; }
    if n > 0 && !Accepts(d, u.received, data[..n], broken) {
      assert u.received in broken;
      return;
    }
    StoreKeepsPrefix(d, u.received, data, more);
    if |more| >= size {
      var stored := if n > 0 then Written(d, u.received, data[..n]) else d;
      FinishCompletes(u.(received := u.received + n, staged := data[n..]), stored, size, more, broken);
    }
  }

  // ---- Whole uploads ----

  /** What an upload of the given packets comes to, from any point in step. */
  lemma {:induction false} UploadFollowsStream(u: Upload, d: Dfu, size: nat, stream: Data, arrivals: seq<Arrival>)
    requires 0 < size <= IMAGE_LIMIT && ArrivalsOk(arrivals) && InStep(u, d, size, stream)
    ensures var (v, e) := Run(u, d, arrivals); var all := stream + Stream(arrivals);
      if v == Failure() then exists i :: 0 <= i < |arrivals| && arrivals[i].broken != {}
      else if |all| < size then InStep(v, e, size, all)
      else v.image && !v.active && |e.cells| == PARTITION && e.cells[..size] == all[..size]
           && exists end: nat :: end <= size + 66 && Chained(e.writes, 0, end)
    decreases |arrivals|
  {
    hide OnPacket, InStep, Complete;
    if arrivals == [] {
      assert stream + [] == stream;
      InStepNow(u, d, size, stream);
      return;
    }
    InStepNow(u, d, size, stream);
    var (next, stored, _) := OnPacket(u, d, arrivals[0].packet, arrivals[0].broken);
    var more := stream + arrivals[0].packet;
    PacketKeepsStep(u, d, size, stream, arrivals[0].packet, arrivals[0].broken);
    assert stream + Stream(arrivals) == more + Stream(arrivals[1..]);
    if next == Failure() {
      assert Run(next, stored, arrivals[1..]) == (next, stored);
    } else if |more| < size {
      UploadFollowsStream(next, stored, size, more, arrivals[1..]);
      if Run(next, stored, arrivals[1..]).0 == Failure() {
        var i :| 0 <= i < |arrivals[1..]| && arrivals[1..][i].broken != {};
        assert arrivals[i + 1].broken != {};
      }
    } else {
      CompleteNow(next, stored, size, more);
      assert (more + Stream(arrivals[1..]))[..size] == more[..size];
    }
  }

  lemma InStepNow(u: Upload, d: Dfu, size: nat, stream: Data)
    requires InStep(u, d, size, stream)
    ensures u.active && !u.image && |stream| < size
  {}

  lemma CompleteNow(u: Upload, d: Dfu, size: nat, stream: Data)
    requires Complete(u, d, size, stream)
    ensures !u.active && u.image && |d.cells| == PARTITION
    ensures size <= |stream| && size <= |d.cells| && d.cells[..size] == stream[..size]
    ensures exists end: nat :: end <= size + 66 && Chained(d.writes, 0, end)
  {}

  /** After READY: with a flash that works, the upload completes exactly when enough bytes
      have come, whatever packets they came in; the partition then starts with them. */
  lemma PacketsDoNotMatter(size: nat, cells: Data, arrivals: seq<Arrival>)
    requires 0 < size <= IMAGE_LIMIT && |cells| == PARTITION && ArrivalsOk(arrivals)
    requires forall i :: 0 <= i < |arrivals| ==> arrivals[i].broken == {}
    ensures var (v, e) := Run(Begin(size), Dfu(cells, []), arrivals);
      && (v.image <==> |Stream(arrivals)| >= size)
      && (v.image ==> |e.cells| == PARTITION && e.cells[..size] == Stream(arrivals)[..size])
      && (exists end: nat :: end <= size + 66 <= PARTITION && Chained(e.writes, 0, end))
  {
    hide Run;
    assert [] + Stream(arrivals) == Stream(arrivals);
    UploadFollowsStream(Begin(size), Dfu(cells, []), size, [], arrivals);
  }

  /** Whatever the flash refuses: an image counts as ready only if it is the stream's. */
  lemma ReadyImageIsTheStream(size: nat, cells: Data, arrivals: seq<Arrival>)
    requires 0 < size <= IMAGE_LIMIT && |cells| == PARTITION && ArrivalsOk(arrivals)
    ensures var (v, e) := Run(Begin(size), Dfu(cells, []), arrivals);
      v.image ==> |Stream(arrivals)| >= size && |e.cells| == PARTITION && e.cells[..size] == Stream(arrivals)[..size]
  {
    hide Run;
    assert [] + Stream(arrivals) == Stream(arrivals);
    UploadFollowsStream(Begin(size), Dfu(cells, []), size, [], arrivals);
  }

  /** The bound on excess bytes is attained. */
  lemma ExcessAttained(cells: Data, first: Data, second: Data)
    requires |cells| == PARTITION && |first| == 1 && |second| == 64
    ensures var (_, e) := Run(Begin(2), Dfu(cells, []), [Arrival(first, {}), Arrival(second, {})]);
      e.writes == [(0, 64), (64, 4)]
  {
    var a := [Arrival(first, {}), Arrival(second, {})];
    var d := Dfu(cells, []);
    assert a[1..] == [Arrival(second, {})] && a[1..][1..] == [];
    var (u1, d1, _) := OnPacket(Begin(2), d, first, {});
    assert [] + first == first;
    assert u1 == Upload(true, 2, 0, first, false) && d1 == d;
    var (u2, d2, _) := OnPacket(u1, d1, second, {});
    assert |first + second| == 65 && Aligned(65) == 64;
    assert Run(u1, d1, a[1..]) == Run(u2, d2, []);
  }

  // ---- A whole session ----

  /** What the host sends: WRITE, ABORT, or a packet; outside an upload a packet is text. */
  datatype Input = StartLine(size: nat) | AbortLine | Chunk(arrival: Arrival)

  /** stream is history: the upload's bytes since the last READY; writes start over with it. */
  datatype Session = Session(upload: Upload, dfu: Dfu, stream: Data)

  function Aborted(u: Upload): Upload { u.(active := false, image := false, staged := []) }

  function OnInput(s: Session, input: Input): Session {
    match input
    case StartLine(size) =>
      if 0 < size <= IMAGE_LIMIT then Session(Begin(size), Dfu(s.dfu.cells, []), []) else s
    case AbortLine => s.(upload := Aborted(s.upload))
    case Chunk(arrival) =>
      if !s.upload.active then s else
        var (next, stored, _) := OnPacket(s.upload, s.dfu, arrival.packet, arrival.broken);
        Session(next, stored, s.stream + arrival.packet)
  }

  function AfterInputs(s: Session, inputs: seq<Input>): Session
    decreases |inputs|
  {
    if inputs == [] then s else OnInput(AfterInputs(s, inputs[..|inputs| - 1]), inputs[|inputs| - 1])
  }

  predicate InputsOk(inputs: seq<Input>) {
    forall i :: 0 <= i < |inputs| ==> inputs[i].Chunk? ==> |inputs[i].arrival.packet| <= PACKET_LIMIT
  }

  ghost predicate Kept(s: Session) {
    var u := s.upload;
    && |s.dfu.cells| == PARTITION
    && (u.active ==> 0 < u.size <= IMAGE_LIMIT && InStep(u, s.dfu, u.size, s.stream))
    && (u.image ==> !u.active && 0 < u.size <= IMAGE_LIMIT && Complete(u, s.dfu, u.size, s.stream))
  }

  lemma InputKept(s: Session, input: Input)
    requires Kept(s) && (input.Chunk? ==> |input.arrival.packet| <= PACKET_LIMIT)
    ensures Kept(OnInput(s, input))
  {
    hide OnPacket;
    if input.Chunk? && s.upload.active {
      PacketKeepsStep(s.upload, s.dfu, s.upload.size, s.stream, input.arrival.packet, input.arrival.broken);
      PacketKeepsSize(s.upload, s.dfu, input.arrival.packet, input.arrival.broken);
    }
  }

  lemma PacketKeepsSize(u: Upload, d: Dfu, packet: Data, broken: set<nat>)
    requires |u.staged| <= 3
    ensures var v := OnPacket(u, d, packet, broken).0; v == Failure() || v.size == u.size
  {
    hide Accepts, Written;
  }

  /** BOOT marks an image only while it is ready; over any run of WRITE, ABORT and packets,
      whatever the flash refused, the partition then starts with the bytes that came since
      the last READY, as many as were announced. */
  lemma {:induction false} BootedImageIsTheStream(s: Session, inputs: seq<Input>)
    requires Kept(s) && InputsOk(inputs)
    ensures var r := AfterInputs(s, inputs);
      && Kept(r)
      && (r.upload.image ==> !r.upload.active && r.upload.size <= |r.stream|
                             && r.dfu.cells[..r.upload.size] == r.stream[..r.upload.size])
    decreases |inputs|
  {
    hide OnInput, InStep;
    if inputs != [] {
      var n := |inputs| - 1;
      BootedImageIsTheStream(s, inputs[..n]);
      InputKept(AfterInputs(s, inputs[..n]), inputs[n]);
    }
  }

  /** After an ABORT there is neither an upload nor an image before the next accepted WRITE. */
  lemma {:induction false} AbortForgets(s: Session, inputs: seq<Input>, k: nat)
    requires k < |inputs| && inputs[k] == AbortLine
    requires forall i :: k < i < |inputs| && inputs[i].StartLine? ==> !(0 < inputs[i].size <= 480 * 1024)
    ensures var u := AfterInputs(s, inputs).upload; !u.active && !u.image && u.staged == []
    decreases |inputs|
  {
    hide OnPacket;
    var n := |inputs| - 1;
    if k < n { AbortForgets(s, inputs[..n], k); }
  }

  /** A refused write ends the upload: nothing is ready before the next accepted WRITE. */
  lemma RefusalEnds(s: Session, arrival: Arrival, later: seq<Input>)
    requires s.upload.active && OnPacket(s.upload, s.dfu, arrival.packet, arrival.broken).0 == Failure()
    requires forall i :: 0 <= i < |later| && later[i].StartLine? ==> !(0 < later[i].size <= 480 * 1024)
    ensures var u := AfterInputs(OnInput(s, Chunk(arrival)), later).upload; !u.active && !u.image
  {
    NothingBegins(OnInput(s, Chunk(arrival)), later);
  }

  lemma {:induction false} NothingBegins(s: Session, inputs: seq<Input>)
    requires !s.upload.active && !s.upload.image
    requires forall i :: 0 <= i < |inputs| && inputs[i].StartLine? ==> !(0 < inputs[i].size <= 480 * 1024)
    ensures var u := AfterInputs(s, inputs).upload; !u.active && !u.image
    decreases |inputs|
  {
    hide OnPacket;
    if inputs != [] { NothingBegins(s, inputs[..|inputs| - 1]); }
  }

  // ---- The same in place ----

  class Partition {
    var cells: Data
    var writes: seq<(nat, nat)>
    var broken: set<nat>

    ghost function Value(): Dfu
      reads this
    {
      Dfu(cells, writes)
    }

    /** A new upload: the record of writes starts over, and the flash may have got better or worse. */
    method Renew(broken: set<nat>)
      modifies this`writes, this`broken
      ensures Value() == Dfu(old(cells), []) && this.broken == broken
    {
      writes, this.broken := [], broken;
    }

    constructor (initial: Data, broken: set<nat>)
      ensures Value() == Dfu(initial, []) && this.broken == broken
    {
      cells, writes, this.broken := initial, [], broken;
    }

    method WriteFirmware(offset: nat, bytes: Data) returns (ok: bool)
      modifies this`cells, this`writes
      ensures ok == Accepts(old(Value()), offset, bytes, broken)
      ensures Value() == if ok then Written(old(Value()), offset, bytes) else old(Value())
    {
      ok := offset !in broken && offset % 4 == 0 && |bytes| % 4 == 0 && offset + |bytes| <= |cells|;
      if ok {
        cells := Overwrite(cells, offset, bytes);
        writes := writes + [(offset, |bytes|)];
      }
    }
  }

  class Uploader {
    const staging: array<bv8>
    var uploadActive: bool
    var uploadSize: nat
    var uploadReceived: nat
    var stagingLen: nat
    var imageReady: bool

    ghost predicate Valid()
      reads this
    {
      staging.Length == STAGING_SIZE && stagingLen <= 3
    }

    ghost function Value(): Upload
      requires Valid()
      reads this, staging
    {
      Upload(uploadActive, uploadSize, uploadReceived, staging[..stagingLen], imageReady)
    }

    constructor ()
      ensures Valid() && fresh(staging) && Value() == Failure()
    {
      staging := new bv8[STAGING_SIZE](_ => 0);
      uploadActive, uploadSize, uploadReceived, stagingLen, imageReady := false, 0, 0, 0, false;
    }

    method Fail()
      requires staging.Length == STAGING_SIZE
      modifies this
      ensures Valid() && Value() == Failure()
    {
      uploadActive := false;
      uploadSize := 0;
      uploadReceived := 0;
      imageReady := false;
      stagingLen := 0;
    }

    /** WRITE: an acceptable size starts a new upload; any other, or a UART update in progress,
        leaves everything as it is. */
    method StartUpload(size: nat, busy: bool) returns (reply: string)
      requires Valid()
      modifies this
      ensures Valid() && Value() == if !busy && 0 < size <= IMAGE_LIMIT then Begin(size) else old(Value())
      ensures reply == if busy then "ERR BUSY\r\n" else if 0 < size <= IMAGE_LIMIT then "READY\r\n" else "ERR SIZE\r\n"
    {
      if busy { return "ERR BUSY\r\n"; }
      if size == 0 || size > IMAGE_LIMIT { return "ERR SIZE\r\n"; }
      uploadActive := true;
      uploadSize := size;
      uploadReceived := 0;
      stagingLen := 0;
      imageReady := false;
      reply := "READY\r\n";
    }

    method AbortUpload()
      requires Valid()
      modifies this
      ensures Valid() && Value() == Aborted(old(Value()))
    {
      uploadActive := false;
      imageReady := false;
      stagingLen := 0;
    }

    /** BOOT: marks goes with the flash's answer; nothing is marked without a ready image. */
    method Boot(busy: bool, marks: bool) returns (reply: string, reboot: bool)
      ensures reboot == (!busy && imageReady && marks)
      ensures reply == if busy then "ERR BUSY\r\n" else if !imageReady then "ERR NOIMAGE\r\n"
                       else if !marks then "ERR MARK\r\n" else "REBOOT\r\n"
    {
      if busy { return "ERR BUSY\r\n", false; }
      if !imageReady { return "ERR NOIMAGE\r\n", false; }
      if !marks { return "ERR MARK\r\n", false; }
      return "REBOOT\r\n", true;
    }

    /** The packet goes behind what is staged; there is always room for it. */
    method Stage(packet: Data) returns (total: nat)
      requires Valid() && |packet| <= PACKET_LIMIT
      modifies staging
      ensures total == stagingLen + |packet| <= 67 && staging[..total] == old(staging[..stagingLen]) + packet
    {
      total := stagingLen + |packet|;
      forall i | 0 <= i < |packet| { staging[stagingLen + i] := packet[i]; }
    }

    /** The bytes that made no whole word move to the front. */
    method KeepRest(from: nat, total: nat)
      requires from <= total <= staging.Length == STAGING_SIZE && total - from <= 3
      modifies staging, this`stagingLen
      ensures Valid() && staging[..stagingLen] == old(staging[from..total])
    {
      forall i | 0 <= i < total - from { staging[i] := staging[from + i]; }
      stagingLen := total - from;
    }

    method Receive(packet: Data, partition: Partition) returns (reply: string)
      requires Valid() && |packet| <= PACKET_LIMIT
      modifies this, staging, partition`cells, partition`writes
      ensures Valid()
      ensures (Value(), partition.Value(), reply)
           == OnPacket(old(Value()), old(partition.Value()), packet, partition.broken)
    {
      hide Accepts, Written, Finish;
      var total := Stage(packet);
      var alignedLen := Aligned(total);
      ghost var data := staging[..total];
      if alignedLen > 0 {
        assert staging[..alignedLen] == data[..alignedLen];
        var ok := partition.WriteFirmware(uploadReceived, staging[..alignedLen]);
        if !ok {
          Fail();
          return "ERR WRITE\r\n";
        }
        uploadReceived := uploadReceived + alignedLen;
      }
      assert staging[alignedLen..total] == data[alignedLen..];
      KeepRest(alignedLen, total);
      if uploadReceived + stagingLen < uploadSize { return ""; }
      reply := Conclude(partition);
    }

    method Conclude(partition: Partition) returns (reply: string)
      requires Valid()
      modifies this, partition`cells, partition`writes
      ensures Valid()
      ensures (Value(), partition.Value(), reply)
           == Finish(old(Value()), old(partition.Value()), partition.broken)
    {
      hide Accepts, Written;
      if stagingLen > 0 {
        var ok := partition.WriteFirmware(uploadReceived, Padded(staging[..stagingLen]));
        if !ok {
          Fail();
          return "ERR WRITE\r\n";
        }
        uploadReceived := uploadReceived + stagingLen;
        stagingLen := 0;
      }
      uploadActive := false;
      imageReady := true;
      reply := "OK\r\n";
    }
  }

  /** A whole session on the real staging buffer and partition. The code arrives where the
      inputs lead, and what BOOT would mark is what came since the last READY. */
  method Serve(uploader: Uploader, partition: Partition, inputs: seq<Input>) returns (ghost stream: Data)
    requires uploader.Valid() && uploader.Value() == Failure()
    requires |partition.cells| == PARTITION && InputsOk(inputs)
    modifies uploader, uploader.staging, partition
    ensures uploader.Valid()
    ensures Session(uploader.Value(), partition.Value(), stream)
         == AfterInputs(Session(Failure(), old(partition.Value()), []), inputs)
    ensures uploader.imageReady ==>
      uploader.uploadSize <= |stream| && uploader.uploadSize <= |partition.cells| == PARTITION
      && partition.cells[..uploader.uploadSize] == stream[..uploader.uploadSize]
  {
    hide OnPacket, Kept;
    ghost var start := Session(Failure(), partition.Value(), []);
    stream := [];
    assert inputs[..0] == [];
    for i := 0 to |inputs|
      invariant uploader.Valid()
      invariant Session(uploader.Value(), partition.Value(), stream) == AfterInputs(start, inputs[..i])
    {
      assert inputs[..i + 1][..i] == inputs[..i];
      assert inputs[i].Chunk? ==> |inputs[i].arrival.packet| <= PACKET_LIMIT;
      stream := Take(uploader, partition, inputs[i], stream);
    }
    assert inputs[..|inputs|] == inputs;
    StartKept(start);
    BootedImageIsTheStream(start, inputs);
    KeptCells(AfterInputs(start, inputs));
  }

  method Take(uploader: Uploader, partition: Partition, input: Input, ghost before: Data) returns (ghost stream: Data)
    requires uploader.Valid() && (input.Chunk? ==> |input.arrival.packet| <= PACKET_LIMIT)
    modifies uploader, uploader.staging, partition
    ensures uploader.Valid()
    ensures Session(uploader.Value(), partition.Value(), stream)
         == OnInput(Session(old(uploader.Value()), old(partition.Value()), before), input)
  {
    hide OnPacket;
    stream := before;
    match input
    case StartLine(size) =>
      var reply := uploader.StartUpload(size, false);
      if reply == "READY\r\n" {
        stream := [];
        partition.Renew({});
      }
    case AbortLine => uploader.AbortUpload();
    case Chunk(arrival) =>
      if uploader.uploadActive {
        stream := stream + arrival.packet;
        partition.broken := arrival.broken;
        var _ := uploader.Receive(arrival.packet, partition);
      }
  }

  lemma StartKept(s: Session)
    requires s.upload == Failure() && |s.dfu.cells| == PARTITION
    ensures Kept(s)
  {}

  lemma KeptCells(s: Session)
    requires Kept(s)
    ensures |s.dfu.cells| == PARTITION && (s.upload.image ==> s.upload.size <= PARTITION)
  {}
}
