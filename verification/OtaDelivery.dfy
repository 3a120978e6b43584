/** That a whole image arrives: from a line on the wire to its bytes, and from a
    lossy stop-and-wait exchange to the answered COMMIT. */
module OtaDelivery {
  import opened Text
  import opened Bytes
  import opened Crc32
  import opened Ota
  import opened UartLink

  // ---- Encoding ----

  function ByteText(b: bv8): (s: string)
    ensures |s| == 2
  {
    Pow16Values();
    HexText(b as nat, 2)
  }

  function BytesText(bytes: seq<bv8>): (s: string)
    ensures |s| == 2 * |bytes|
  {
    if bytes == [] then "" else ByteText(bytes[0]) + BytesText(bytes[1..])
  }

  predicate HexOnly(s: string) { forall i :: 0 <= i < |s| ==> IsNumberDigit(s[i]) }

  lemma {:induction false} BytesTextIsHex(bytes: seq<bv8>)
    ensures HexOnly(BytesText(bytes))
    decreases |bytes|
  {
    if bytes != [] { BytesTextIsHex(bytes[1..]); }
  }

  lemma ByteRoundTrip(b: bv8)
    ensures HexToken(ByteText(b), 2) == Some(b as nat) && (b as nat) as bv8 == b
  {
    Pow16Values();
    HexTextValue(b as nat, 2);
  }

  lemma {:induction false} BytesRoundTrip(bytes: seq<bv8>)
    ensures PairBytes(BytesText(bytes)) == Some(bytes)
    decreases |bytes|
  {
    if bytes != [] {
      var s := BytesText(bytes);
      assert s[..2] == ByteText(bytes[0]) && s[2..] == BytesText(bytes[1..]);
      ByteRoundTrip(bytes[0]);
      BytesRoundTrip(bytes[1..]);
      assert bytes == [bytes[0]] + bytes[1..];
    }
  }

  function Word(n: nat): string
    requires n < 0x1_0000_0000
  {
    Pow16Values();
    HexText(n, 8)
  }

  lemma WordRoundTrip(n: nat)
    requires n < 0x1_0000_0000
    ensures Hex(Word(n)) == Some(n) && IsToken(Word(n)) && HexOnly(Word(n)) && |Word(n)| == 8
  {
    Pow16Values();
    HexTextValue(n, 8);
  }

  lemma CrcWordRoundTrip(c: bv32)
    ensures 0 <= c as int < 0x1_0000_0000 && (c as nat) as bv32 == c
  {}

  lemma HexIsToken(s: string)
    requires HexOnly(s) && s != ""
    ensures IsToken(s)
  {}

  // ---- From the wire to the update ----

  lemma ParseJoined(toks: seq<string>)
    requires AreTokens(toks) && |toks| > 0
    ensures Parse(Join(toks)) == ParseTokens(toks)
  {
    SplitJoin(toks);
  }

  /** Any spelling of an update line: whatever its spacing, its tokens decide. */
  predicate SpellsData(command: string, offset: nat, bytes: seq<bv8>) {
    var toks := Tokens(command);
    && |toks| == 4 && toks[0] == "OTA" && toks[1] == "DATA"
    && Hex(toks[2]) == Some(offset)
    && ValidPayload(toks[3]) && PairBytes(toks[3]) == Some(bytes)
  }

  lemma SpelledDataDecodes(command: string, offset: nat, bytes: seq<bv8>)
    requires SpellsData(command, offset, bytes)
    ensures Parse(Canonical(command)) == Data(offset, bytes)
  {
    var toks := Tokens(command);
    ParseJoined(toks);
    assert toks[2..] == [toks[2], toks[3]];
  }

  lemma AtFrame(number: nat, command: string)
    requires number < 0x1_0000_0000 && '\r' !in command
    ensures var line := "@" + Word(number) + " " + command;
      LineFrame(line) == Some(Frame(number, Canonical(command), FrameError(command)))
  {
    var line := "@" + Word(number) + " " + command;
    WordRoundTrip(number);
    Pow16Values();
    HexTextValue(number, 8);
    assert line[|line| - 1] != '\r' by {
      if command != "" { assert line[|line| - 1] == command[|command| - 1]; }
    }
    assert line[1..9] == Word(number) && line[10..] == command;
    forall i | 1 <= i < 9 ensures IsNumberDigit(line[i]) { assert line[i] == Word(number)[i - 1]; }
  }

  /** A numbered line fed byte by byte yields one frame, with that number and the canonical text. */
  lemma NumberedLineArrives(number: nat, command: string)
    requires number < 0x1_0000_0000 && |command| <= 246
    requires Printable(command)
    ensures FramesOfBytes(CLEAN, "@" + Word(number) + " " + command + "\n")
         == [Frame(number, Canonical(command), FrameError(command))]
    ensures |command| <= 245 ==>
      FramesOfBytes(CLEAN, "@" + Word(number) + " " + command + "\r\n")
        == [Frame(number, Canonical(command), FrameError(command))]
  {
    hide LineFrame, Word, Canonical, FrameError, FramesOfBytes;
    var line := "@" + Word(number) + " " + command;
    AtFrame(number, command);
    WordRoundTrip(number);
    LinePrintable(Word(number), command);
    OneLine(line);
    assert line + "\r\n" == (line + "\r") + "\n";
    if |command| <= 245 { OneLineCr(line); }
  }

  lemma OneLineCr(line: string)
    requires Printable(line) && |line| < LINE_LIMIT
    ensures FramesOfBytes(CLEAN, (line + "\r") + "\n") == OptionSeq(LineFrame(line))
  {
    hide LineFrame, FramesOfBytes;
    CrIsOptional(line);
    LineYieldsExactly(line + "\r");
  }

  lemma LinePrintable(word: string, command: string)
    requires |word| == 8 && HexOnly(word) && Printable(command)
    ensures Printable("@" + word + " " + command)
  {}

  lemma OneLine(line: string)
    requires Printable(line) && |line| <= LINE_LIMIT
    ensures FramesOfBytes(CLEAN, line + "\n") == OptionSeq(LineFrame(line))
  {
    hide LineFrame;
    var stream := line + "\n";
    StreamingIsBatch(stream);
    assert stream[|line|] == '\n' && stream[..|line|] == line && stream[|line| + 1..] == "";
    assert '\n' !in line;
    IndexOfUnique(stream, '\n', |line|);
    assert BatchFrames("") == [];
  }

  /** From the wire to the flash: every number, offset and payload of one to sixteen words,
      with any spacing that fits, arrives as one clean frame that decodes to just those. */
  lemma LineToFlash(number: nat, offset: nat, bytes: seq<bv8>, gaps: seq<nat>, last: nat)
    requires number < 0x1_0000_0000 && offset < 0x1_0000_0000
    requires 4 <= |bytes| <= 64 && |bytes| % 4 == 0
    requires |gaps| == 4 && forall i :: 0 < i < 4 ==> gaps[i] > 0
    requires |Spaced(["OTA", "DATA", Word(offset), BytesText(bytes)], gaps, last)| <= 246
    ensures var command := Spaced(["OTA", "DATA", Word(offset), BytesText(bytes)], gaps, last);
      && FramesOfBytes(CLEAN, "@" + Word(number) + " " + command + "\n")
           == [Frame(number, Canonical(command), None)]
      && (|command| <= 245 ==>
            FramesOfBytes(CLEAN, "@" + Word(number) + " " + command + "\r\n")
              == [Frame(number, Canonical(command), None)])
      && Parse(Canonical(command)) == Data(offset, bytes)
  {
    hide Hex, Word, PairBytes, BytesText, Parse, Tokens, Spaced, FramesOfBytes;
    var toks := ["OTA", "DATA", Word(offset), BytesText(bytes)];
    var command := Spaced(toks, gaps, last);
    WordRoundTrip(offset);
    BytesTextIsHex(bytes);
    HexIsToken(BytesText(bytes));
    BytesRoundTrip(bytes);
    assert AreTokens(toks);
    TokensSpaced(toks, gaps, last);
    SpelledDataDecodes(command, offset, bytes);
    SpacedPrintable(toks, gaps, last);
    NumberedLineArrives(number, command);
    CanonicalForm(command);
    assert '\r' !in command;
  }

  predicate Printable(s: string) { forall i :: 0 <= i < |s| ==> ' ' <= s[i] <= '~' }

  lemma {:induction false} SpacedPrintable(toks: seq<string>, gaps: seq<nat>, last: nat)
    requires |toks| == |gaps| && forall i :: 0 <= i < |toks| ==> Printable(toks[i])
    ensures Printable(Spaced(toks, gaps, last))
    decreases |toks|
  {
    if toks != [] {
      SpacedPrintable(toks[1..], gaps[1..], last);
    }
  }

  lemma BeginTokens(size: string, crc: string)
    ensures ParseTokens(["OTA", "BEGIN", size, crc]) == ParseBegin([size, crc])
  {
    hide ParseBegin;
    assert ["OTA", "BEGIN", size, crc][2..] == [size, crc];
  }

  lemma DataTokens(offset: string, payload: string)
    ensures ParseTokens(["OTA", "DATA", offset, payload]) == ParseData([offset, payload])
  {
    hide ParseData;
    assert ["OTA", "DATA", offset, payload][2..] == [offset, payload];
    assert "DATA"[0] != "BEGIN"[0];
  }

  lemma BeginDecodes(size: nat, crc: bv32)
    requires ValidSize(size)
    ensures Parse(Join(["OTA", "BEGIN", Word(size), CrcWord(crc)])) == Begin(size, crc)
  {
    hide Hex, Word, Parse, ParseTokens;
    WordRoundTrip(size);
    CrcWordRoundTrip(crc);
    WordRoundTrip(crc as nat);
    ParseJoined(["OTA", "BEGIN", Word(size), CrcWord(crc)]);
    BeginTokens(Word(size), CrcWord(crc));
  }

  lemma FourTokens(a: string, b: string, c: string, d: string)
    requires IsToken(a) && IsToken(b) && IsToken(c) && IsToken(d)
    ensures Parse(Join([a, b, c, d])) == ParseTokens([a, b, c, d])
  {
    hide Parse, ParseTokens, IsToken;
    ParseJoined([a, b, c, d]);
  }

  lemma DataArguments(word: string, payload: string, offset: nat, bytes: seq<bv8>)
    requires Hex(word) == Some(offset) && ValidPayload(payload) && PairBytes(payload) == Some(bytes)
    ensures ParseData([word, payload]) == Data(offset, bytes)
  {
    hide Hex, ValidPayload, PairBytes;
  }

  lemma KeywordTokens()
    ensures IsToken("OTA") && IsToken("DATA")
  {}

  lemma DataDecodes(offset: nat, bytes: seq<bv8>)
    requires offset < 0x1_0000_0000 && 4 <= |bytes| <= 64 && |bytes| % 4 == 0
    ensures Parse(Join(["OTA", "DATA", Word(offset), BytesText(bytes)])) == Data(offset, bytes)
  {
    hide Hex, Word, PairBytes, BytesText, Parse, ParseTokens, ParseData, Join, IsToken, HexOnly;
    var word, payload := Word(offset), BytesText(bytes);
    WordRoundTrip(offset);
    BytesTextIsHex(bytes);
    HexIsToken(payload);
    KeywordTokens();
    BytesRoundTrip(bytes);
    FourTokens("OTA", "DATA", word, payload);
    DataTokens(word, payload);
    DataArguments(word, payload, offset, bytes);
  }

  /** Which sizes BEGIN accepts: from 256 bytes to 480 KiB, in whole words. */
  lemma BeginExactly(size: nat, crc: bv32)
    requires size < 0x1_0000_0000
    ensures Parse(Join(["OTA", "BEGIN", Word(size), CrcWord(crc)]))
         == if 256 <= size <= 491_520 && size % 4 == 0 then Begin(size, crc) else BeginBadSize
  {
    hide Hex, Word, Parse, ParseTokens;
    WordRoundTrip(size);
    CrcWordRoundTrip(crc);
    WordRoundTrip(crc as nat);
    ParseJoined(["OTA", "BEGIN", Word(size), CrcWord(crc)]);
    BeginTokens(Word(size), CrcWord(crc));
  }

  /** Which payloads DATA accepts: from 4 to 64 bytes, in whole words. */
  lemma DataExactly(offset: nat, bytes: seq<bv8>)
    requires offset < 0x1_0000_0000 && bytes != []
    ensures Parse(Join(["OTA", "DATA", Word(offset), BytesText(bytes)]))
         == if 4 <= |bytes| <= 64 && |bytes| % 4 == 0 then Data(offset, bytes) else BadData
  {
    hide Hex, Word, PairBytes, BytesText, Parse, ParseTokens, ParseData, Join, IsToken, HexOnly;
    var word, payload := Word(offset), BytesText(bytes);
    WordRoundTrip(offset);
    BytesTextIsHex(bytes);
    HexIsToken(payload);
    BytesRoundTrip(bytes);
    KeywordTokens();
    FourTokens("OTA", "DATA", word, payload);
    DataTokens(word, payload);
    PayloadSize(bytes);
    if ValidPayload(payload) { DataArguments(word, payload, offset, bytes); } else { DataRefused(word, payload); }
  }

  lemma PayloadSize(bytes: seq<bv8>)
    ensures ValidPayload(BytesText(bytes)) <==> 4 <= |bytes| <= 64 && |bytes| % 4 == 0
  {
    hide BytesText;
    var payload, n := BytesText(bytes), |bytes|;
    assert |payload| == 2 * n;
    TwiceModulo(n);
  }

  lemma TwiceModulo(n: nat)
    ensures 2 * n % 8 == 0 <==> n % 4 == 0
  {}

  lemma DataRefused(word: string, payload: string)
    requires !ValidPayload(payload)
    ensures ParseData([word, payload]) == BadData
  {
    hide Hex, ValidPayload, PairBytes;
  }

  // ---- The sender ----

  /** Block boundaries: whole words, at most 64 bytes apart, the first block at least 8. */
  predicate GoodCuts(cuts: seq<nat>, size: nat) {
    && |cuts| >= 2 && cuts[0] == 0 && cuts[|cuts| - 1] == size && cuts[1] >= 8
    && (forall i :: 0 <= i < |cuts| - 1 ==> cuts[i] + 4 <= cuts[i + 1] <= cuts[i] + 64)
    && (forall i :: 0 <= i < |cuts| ==> cuts[i] % 4 == 0 && cuts[i] <= size)
  }

  /** An image and the places where the sender cuts it into blocks. */
  datatype Upload = Upload(image: seq<bv8>, cuts: seq<nat>) {
    predicate Valid() {
      && ValidSize(|image|) && ValidVector(image[..8], |image|)
      && GoodCuts(cuts, |image|)
    }

    function Blocks(): nat requires |cuts| >= 1 { |cuts| - 1 }

    function Block(i: nat): seq<bv8>
      requires Valid() && i < Blocks()
    {
      image[cuts[i]..cuts[i + 1]]
    }

    /** Line 0 opens, lines 1 to Blocks carry the image, one more commits. */
    function LineText(k: nat): string
      requires Valid() && k <= Blocks() + 1
    {
      if k == 0 then Join(["OTA", "BEGIN", Word(|image|), CrcWord(ImageCrc(image))])
      else if k <= Blocks() then Join(["OTA", "DATA", Word(cuts[k - 1]), BytesText(Block(k - 1))])
      else Join(["OTA", "COMMIT"])
    }

    function LineMeaning(k: nat): Line
      requires Valid() && k <= Blocks() + 1
    {
      if k == 0 then Begin(|image|, ImageCrc(image))
      else if k <= Blocks() then Data(cuts[k - 1], Block(k - 1))
      else Commit
    }

    lemma LineDecodes(k: nat)
      requires Valid() && k <= Blocks() + 1
      ensures Parse(LineText(k)) == LineMeaning(k)
    {
      hide ImageCrc, ValidVector, Parse;
      if k == 0 { BeginDecodes(|image|, ImageCrc(image)); }
      else if k <= Blocks() {
        assert cuts[k - 1] + 4 <= cuts[k - 1 + 1];
        DataDecodes(cuts[k - 1], Block(k - 1));
      } else { ParseJoined(["OTA", "COMMIT"]); }
    }

    /** The answer a compliant line must get. */
    function Expected(k: nat): string requires |cuts| >= 1 {
      if k == 0 then "READY\r\n" else if k <= Blocks() then "OK\r\n" else "REBOOT\r\n"
    }
  }

  function CrcWord(c: bv32): string {
    CrcWordRoundTrip(c);
    Word(c as nat)
  }

  lemma {:induction false} JoinPrintable(toks: seq<string>)
    requires forall i :: 0 <= i < |toks| ==> Printable(toks[i])
    ensures Printable(Join(toks))
    decreases |toks|
  {
    if |toks| > 1 { JoinPrintable(toks[1..]); }
  }

  /** An update line written with single spaces arrives as it is. */
  lemma JoinedArrives(number: nat, toks: seq<string>)
    requires number < 0x1_0000_0000 && AreTokens(toks) && |toks| > 0 && toks[0] == "OTA"
    requires |Join(toks)| <= 246 && forall i :: 0 <= i < |toks| ==> Printable(toks[i])
    ensures FramesOfBytes(CLEAN, "@" + Word(number) + " " + Join(toks) + "\n") == [Frame(number, Join(toks), None)]
    ensures |Join(toks)| <= 245 ==>
      FramesOfBytes(CLEAN, "@" + Word(number) + " " + Join(toks) + "\r\n") == [Frame(number, Join(toks), None)]
  {
    hide FramesOfBytes, Word, Tokens, Join;
    TokensJoin(toks);
    JoinPrintable(toks);
    NumberedLineArrives(number, Join(toks));
  }

  lemma FourJoined(a: string, b: string, c: string, d: string)
    ensures |Join([a, b, c, d])| == |a| + |b| + |c| + |d| + 3
  {
    hide Join;
    JoinMore([a, b, c, d]);
    JoinMore([b, c, d]);
    JoinMore([c, d]);
    JoinOne(d);
    assert [a, b, c, d][1..] == [b, c, d] && [b, c, d][1..] == [c, d] && [c, d][1..] == [d];
  }

  lemma JoinMore(toks: seq<string>)
    requires |toks| > 1
    ensures |Join(toks)| == |toks[0]| + 1 + |Join(toks[1..])|
  {}

  lemma JoinOne(t: string)
    ensures Join([t]) == t
  {}

  lemma KeywordsPrintable()
    ensures Printable("OTA") && Printable("BEGIN") && Printable("DATA") && Printable("COMMIT")
    ensures IsToken("OTA") && IsToken("BEGIN") && IsToken("DATA") && IsToken("COMMIT")
    ensures |Join(["OTA", "COMMIT"])| == 10
  {}

  lemma HexPrintable(s: string)
    requires HexOnly(s)
    ensures Printable(s)
  {}

  /** Every line of the sender, numbered and fed byte by byte to the receiver's parser, comes
      out as the one error-free frame that the update decodes to what the sender meant. */
  lemma SenderLineArrives(u: Upload, k: nat, number: nat)
    requires u.Valid() && k <= u.Blocks() + 1 && number < 0x1_0000_0000
    ensures FramesOfBytes(CLEAN, "@" + Word(number) + " " + u.LineText(k) + "\n")
         == [Frame(number, u.LineText(k), None)]
    ensures FramesOfBytes(CLEAN, "@" + Word(number) + " " + u.LineText(k) + "\r\n")
         == [Frame(number, u.LineText(k), None)]
    ensures Parse(u.LineText(k)) == u.LineMeaning(k)
  {
    hide FramesOfBytes, Word, Tokens, Join, Parse, ImageCrc, ValidVector, HexOnly, Hex, IsToken, Printable, BytesText;
    u.LineDecodes(k);
    KeywordsPrintable();
    if k == 0 {
      CrcWordRoundTrip(ImageCrc(u.image));
      FourArrive(number, "BEGIN", |u.image|, CrcWord(ImageCrc(u.image)), ImageCrc(u.image) as nat);
    } else if k <= u.Blocks() {
      DataArrives(u, k, number);
    } else {
      JoinedArrives(number, ["OTA", "COMMIT"]);
    }
  }

  lemma FourArrive(number: nat, keyword: string, n: nat, last: string, crc: nat)
    requires number < 0x1_0000_0000 && n < 0x1_0000_0000 && crc < 0x1_0000_0000 && last == Word(crc)
    requires IsToken(keyword) && Printable(keyword) && |keyword| <= 5
    ensures FramesOfBytes(CLEAN, "@" + Word(number) + " " + Join(["OTA", keyword, Word(n), last]) + "\n")
         == [Frame(number, Join(["OTA", keyword, Word(n), last]), None)]
    ensures FramesOfBytes(CLEAN, "@" + Word(number) + " " + Join(["OTA", keyword, Word(n), last]) + "\r\n")
         == [Frame(number, Join(["OTA", keyword, Word(n), last]), None)]
  {
    hide FramesOfBytes, Word, Tokens, Join, HexOnly, Hex, IsToken, Printable;
    KeywordsPrintable();
    WordRoundTrip(n);
    WordRoundTrip(crc);
    HexPrintable(Word(n));
    HexPrintable(last);
    FourJoined("OTA", keyword, Word(n), last);
    JoinedArrives(number, ["OTA", keyword, Word(n), last]);
  }

  lemma DataArrives(u: Upload, k: nat, number: nat)
    requires u.Valid() && 1 <= k <= u.Blocks() && number < 0x1_0000_0000
    ensures FramesOfBytes(CLEAN, "@" + Word(number) + " " + u.LineText(k) + "\n")
         == [Frame(number, u.LineText(k), None)]
    ensures FramesOfBytes(CLEAN, "@" + Word(number) + " " + u.LineText(k) + "\r\n")
         == [Frame(number, u.LineText(k), None)]
  {
    hide FramesOfBytes, Word, Tokens, Join, HexOnly, Hex, IsToken, Printable, BytesText, ImageCrc, ValidVector;
    assert u.cuts[k - 1] + 4 <= u.cuts[k - 1 + 1];
    var offset, payload := Word(u.cuts[k - 1]), BytesText(u.Block(k - 1));
    KeywordsPrintable();
    WordRoundTrip(u.cuts[k - 1]);
    BytesTextIsHex(u.Block(k - 1));
    HexIsToken(payload);
    HexPrintable(offset);
    HexPrintable(payload);
    FourJoined("OTA", "DATA", offset, payload);
    JoinedArrives(number, ["OTA", "DATA", offset, payload]);
  }

  /** What the link does with one transmission: the request is lost; it arrives and the
      answer is lost; both arrive; or an already acknowledged block arrives once more. */
  datatype Event = RequestLost | ReplyLost | Delivered | Repeated(line: nat)

  /** next is the line the sender is waiting to have answered; effects are the storage
      operations since the exchange began. */
  datatype World = World(next: nat, state: State, cells: seq<bv8>, replies: seq<(nat, string)>, effects: seq<Effect>)

  predicate Possible(u: Upload, w: World, e: Event)
    requires u.Valid()
  {
    && w.next <= u.Blocks() + 1
    && (e.Repeated? ==> 1 <= e.line < w.next)
    && (e.ReplyLost? ==> w.next <= u.Blocks())
  }

  function Receive(u: Upload, w: World, k: nat): World
    requires u.Valid() && k <= u.Blocks() + 1 && Sound(w.state) && |w.cells| >= LIMIT
  {
    var out := Respond(w.state, Dfu(w.cells, true, {}, true), Parse(u.LineText(k)));
    w.(state := out.state, cells := CellsAfter(w.cells, out.effect), replies := w.replies + [(k, out.reply)],
       effects := w.effects + if out.effect.Quiet? then [] else [out.effect])
  }

  function Happen(u: Upload, w: World, e: Event): World
    requires u.Valid() && Possible(u, w, e) && Sound(w.state) && |w.cells| >= LIMIT
  {
    match e
    case RequestLost => w
    case ReplyLost => Receive(u, w, w.next)
    case Delivered => Receive(u, w, w.next).(next := w.next + 1)
    case Repeated(k) => Receive(u, w, k)
  }

  /** Nothing has been marked for booting yet. */
  predicate Unmarked(effects: seq<Effect>) { forall i :: 0 <= i < |effects| ==> !effects[i].Mark? }

  /** The whole image is in the flash, and its marking was the last operation and the only one
      of its kind. */
  predicate Installed(u: Upload, w: World)
    requires u.Valid()
  {
    && |w.cells| >= LIMIT >= |u.image| && w.cells[..|u.image|] == u.image
    && !w.state.active
    && w.effects != [] && w.effects[|w.effects| - 1] == Mark(true) && Unmarked(w.effects[..|w.effects| - 1])
    && w.replies != [] && w.replies[|w.replies| - 1] == (u.Blocks() + 1, "REBOOT\r\n")
  }

  /** The receiver is on a block boundary and holds exactly the image up to it; at the end it
      has installed the image. */
  predicate InStep(u: Upload, w: World)
    requires u.Valid()
  {
    && |w.cells| >= LIMIT && Sound(w.state) && w.next <= u.Blocks() + 2
    && (forall i :: 0 <= i < |w.replies| ==> w.replies[i].1 == u.Expected(w.replies[i].0))
    && (1 <= w.next <= u.Blocks() + 1 ==>
          && w.state.active && w.state.size == |u.image| && w.state.expectedCrc == ImageCrc(u.image)
          && (w.state.received == u.cuts[w.next - 1]
              || (w.next <= u.Blocks() && w.state.received == u.cuts[w.next]))
          && w.cells[..w.state.received] == u.image[..w.state.received])
    && (w.next <= u.Blocks() + 1 ==> Unmarked(w.effects))
    && (w.next == u.Blocks() + 2 ==> Installed(u, w))
  }

  lemma {:induction false} CutsAscend(u: Upload, i: nat, j: nat)
    requires u.Valid() && i <= j < |u.cuts|
    ensures u.cuts[i] <= u.cuts[j]
    decreases j
  {
    hide ValidVector;
    if i < j { CutsAscend(u, i, j - 1); }
  }

  /** A block that starts where the receiver stands is stored. */
  lemma NextBlock(u: Upload, w: World, k: nat)
    requires u.Valid() && InStep(u, w) && 1 <= w.next <= u.Blocks() + 1
    requires 1 <= k <= u.Blocks() && w.state.received == u.cuts[k - 1]
    ensures var v := Receive(u, w, k);
      && v.next == w.next && v.state == w.state.(received := u.cuts[k]) && v.replies == w.replies + [(k, "OK\r\n")]
      && v.effects == w.effects + [Write(u.cuts[k - 1], u.Block(k - 1), true)]
      && |v.cells| == |w.cells| && v.cells[..u.cuts[k]] == u.image[..u.cuts[k]]
  {
    hide ImageCrc, ValidVector, Parse;
    u.LineDecodes(k);
    var a, b := u.cuts[k - 1], u.cuts[k];
    assert u.cuts[k - 1] + 4 <= u.cuts[k - 1 + 1];
    var bytes := u.image[a..b];
    if a == 0 {
      FirstBlockIsFirst(u, k);
      assert b >= 8 && bytes[..8] == u.image[..8];
    }
    assert OnData(w.state, Dfu(w.cells, true, {}, true), a, bytes)
        == Outcome(w.state.(received := b), "OK\r\n", false, Write(a, bytes, true));
    OverwritePrefix(w.cells, u.image, a, b);
  }

  /** Writing the next stretch of an image behind its stored prefix extends the prefix. */
  lemma OverwritePrefix(cells: seq<bv8>, image: seq<bv8>, a: nat, b: nat)
    requires a <= b <= |image| && b <= |cells| && cells[..a] == image[..a]
    ensures Overwrite(cells, a, image[a..b])[..b] == image[..b]
  {
    var after := Overwrite(cells, a, image[a..b]);
    assert after[..b] == after[..a] + after[a..b];
    assert image[..b] == image[..a] + image[a..b];
  }

  lemma FirstBlockIsFirst(u: Upload, k: nat)
    requires u.Valid() && 1 <= k <= u.Blocks() && u.cuts[k - 1] == 0
    ensures k == 1
  {
    if k > 1 { CutsAscend(u, 1, k - 1); }
  }

  lemma SameSlice(a: seq<bv8>, b: seq<bv8>, n: nat, i: nat, j: nat)
    requires i <= j <= n <= |a| && n <= |b| && a[..n] == b[..n]
    ensures a[i..j] == b[i..j]
  {
    forall k | i <= k < j ensures a[k] == b[k] {
      assert a[k] == a[..n][k] && b[k] == b[..n][k];
    }
  }

  lemma OldData(s: State, d: Dfu, offset: nat, bytes: seq<bv8>)
    requires Sound(s) && s.active && d.Valid() && d.unreadable == {}
    requires |bytes| > 0 && offset + |bytes| <= s.received && d.cells[offset..offset + |bytes|] == bytes
    ensures OnData(s, d, offset, bytes) == Say(s, "OK\r\n")
  {}

  /** A block the receiver already has is acknowledged again and changes nothing. */
  lemma OldBlock(u: Upload, w: World, k: nat)
    requires u.Valid() && InStep(u, w) && 1 <= w.next <= u.Blocks() + 1
    requires 1 <= k <= u.Blocks() && u.cuts[k] <= w.state.received
    ensures Receive(u, w, k) == w.(replies := w.replies + [(k, "OK\r\n")])
  {
    hide ImageCrc, ValidVector, OnData, Parse;
    u.LineDecodes(k);
    var a, b := u.cuts[k - 1], u.cuts[k];
    assert u.cuts[k - 1] + 4 <= u.cuts[k - 1 + 1];
    SameSlice(w.cells, u.image, w.state.received, a, b);
    OldData(w.state, Dfu(w.cells, true, {}, true), a, u.image[a..b]);
  }

  lemma Closing(u: Upload, w: World)
    requires u.Valid() && InStep(u, w) && w.next == u.Blocks() + 1
    ensures var v := Receive(u, w, w.next);
      && Sound(v.state) && !v.state.active && v.cells == w.cells
      && v.replies == w.replies + [(w.next, "REBOOT\r\n")] && v.effects == w.effects + [Mark(true)]
  {
    hide ImageCrc, ValidVector;
    u.LineDecodes(w.next);
    assert u.image[..|u.image|] == u.image;
  }

  /** COMMIT is answered once: were its answer lost, sending it again would find no session
      any more, and would neither mark nor write anything. */
  lemma CommitAnswersOnce(u: Upload, w: World)
    requires u.Valid() && InStep(u, w) && w.next == u.Blocks() + 1
    ensures var v := Receive(u, w, w.next);
      && Sound(v.state) && |v.cells| >= LIMIT
      && Receive(u, v, w.next) == v.(replies := v.replies + [(w.next, "ERR INCOMPLETE\r\n")])
  {
    hide ImageCrc, ValidVector, Parse, OnData;
    u.LineDecodes(w.next);
    Closing(u, w);
    CommitEnds(w.state, Dfu(w.cells, true, {}, true));
  }

  lemma CommitEnds(s: State, d: Dfu)
    requires Sound(s) && d.Valid() && s.active && s.received == s.size
    ensures !OnCommit(s, d).state.active
  {
    hide ImageCrc;
  }

  /** Any block line the sender may put on the wire finds the receiver either just
      before it or past it. */
  lemma BlockKeepsStep(u: Upload, w: World, k: nat)
    requires u.Valid() && InStep(u, w) && 1 <= w.next <= u.Blocks() + 1
    requires 1 <= k <= u.Blocks() && k <= w.next
    ensures var v := Receive(u, w, k);
      && InStep(u, v) && (k == w.next ==> v.state.received == u.cuts[w.next])
  {
    hide ImageCrc, ValidVector, Receive;
    if k < w.next { CutsAscend(u, k, w.next - 1); }
    if w.next <= u.Blocks() { CutsAscend(u, w.next - 1, w.next); }
    if w.state.received == u.cuts[k - 1] {
      CutsAscendStrictly(u, k);
      NextBlock(u, w, k);
    } else {
      OldBlock(u, w, k);
    }
  }

  lemma CutsAscendStrictly(u: Upload, k: nat)
    requires u.Valid() && 1 <= k < |u.cuts|
    ensures u.cuts[k - 1] < u.cuts[k]
  {
    assert u.cuts[k - 1] + 4 <= u.cuts[k - 1 + 1];
  }

  lemma OpeningKeepsStep(u: Upload, w: World)
    requires u.Valid() && InStep(u, w) && w.next == 0
    ensures var v := Receive(u, w, 0);
      InStep(u, v) && InStep(u, v.(next := 1))
  {
    hide ImageCrc, ValidVector, Parse, OnData, OnCommit;
    u.LineDecodes(0);
    var v := Receive(u, w, 0);
    assert v.state == State(true, |u.image|, 0, ImageCrc(u.image)) && v.cells == w.cells;
    assert v.cells[..0] == u.image[..0];
  }

  lemma EventKeepsStep(u: Upload, w: World, e: Event)
    requires u.Valid() && InStep(u, w) && Possible(u, w, e)
    ensures InStep(u, Happen(u, w, e))
  {
    hide ImageCrc, ValidVector, Receive;
    if !e.RequestLost? {
      var k := if e.Repeated? then e.line else w.next;
      if k == 0 { OpeningKeepsStep(u, w); }
      else if k == u.Blocks() + 1 { Closing(u, w); }
      else { BlockKeepsStep(u, w, k); ReceiveKeepsNext(u, w, k); }
    }
  }

  lemma ReceiveKeepsNext(u: Upload, w: World, k: nat)
    requires u.Valid() && k <= u.Blocks() + 1 && Sound(w.state) && |w.cells| >= LIMIT
    ensures Receive(u, w, k).next == w.next
  {}

  // ---- Whole exchanges ----

  ghost predicate PossibleRun(u: Upload, w: World, events: seq<Event>)
    requires u.Valid() && InStep(u, w)
    decreases |events|
  {
    events == [] || (Possible(u, w, events[0]) &&
      (EventKeepsStep(u, w, events[0]); PossibleRun(u, Happen(u, w, events[0]), events[1..])))
  }

  ghost function RunOf(u: Upload, w: World, events: seq<Event>): (v: World)
    requires u.Valid() && InStep(u, w) && PossibleRun(u, w, events)
    ensures InStep(u, v)
    decreases |events|
  {
    if events == [] then w else
      EventKeepsStep(u, w, events[0]);
      RunOf(u, Happen(u, w, events[0]), events[1..])
  }

  function CountDelivered(events: seq<Event>): nat {
    if events == [] then 0 else (if events[0].Delivered? then 1 else 0) + CountDelivered(events[1..])
  }

  /** Whatever the link loses or repeats: every line that arrives gets its proper answer, the
      receiver always stands on a block boundary holding exactly that much of the image, and
      once every line has been answered the flash holds the whole image, the session is over
      and the image has been marked for booting, once and as the last operation. */
  lemma {:induction false} LossyLinkDelivers(u: Upload, w: World, events: seq<Event>)
    requires u.Valid() && InStep(u, w) && PossibleRun(u, w, events)
    ensures var v := RunOf(u, w, events);
      && InStep(u, v)
      && v.next == w.next + CountDelivered(events)
      && (forall i :: 0 <= i < |v.replies| ==> v.replies[i].1 == u.Expected(v.replies[i].0))
      && (v.next == u.Blocks() + 2 ==> Installed(u, v))
    decreases |events|
  {
    hide Receive, Happen, ImageCrc, ValidVector, Installed, Unmarked;
    if events != [] {
      EventKeepsStep(u, w, events[0]);
      LossyLinkDelivers(u, Happen(u, w, events[0]), events[1..]);
      HappenCounts(u, w, events[0]);
    }
  }

  lemma HappenCounts(u: Upload, w: World, e: Event)
    requires u.Valid() && InStep(u, w) && Possible(u, w, e)
    ensures Happen(u, w, e).next == w.next + if e.Delivered? then 1 else 0
  {
    hide ImageCrc, ValidVector;
  }

  /** From any earlier session whatever, the exchange may begin. */
  lemma AnyStartWillDo(u: Upload, s: State, cells: seq<bv8>)
    requires u.Valid() && Sound(s) && |cells| >= LIMIT
    ensures InStep(u, World(0, s, cells, [], []))
  {}

  /** A size that BEGIN accepts admits some image with a sound vector exactly when it is more
      than 256: at 256 bytes the range left for the reset address is empty. */
  lemma SmallestImageNeverFits(size: nat)
    requires ValidSize(size)
    ensures (exists head: seq<bv8> :: |head| == 8 && ValidVector(head, size)) <==> size > 256
  {
    if size > 256 {
      var sp, reset := LeBytes(0x20000000), LeBytes(0x7101);
      LeRoundTrip(0x20000000);
      LeRoundTrip(0x7101);
      hide Le32, LeBytes;
      var head := sp + reset;
      assert head[..4] == sp && head[4..] == reset;
      assert |head| == 8 && ValidVector(head, size);
    }
  }
}
