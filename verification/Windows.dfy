/** What a master sees through register windows: the documented input map, windows that tile, and the
    read-back of written holding registers. */
module Windows {
  import opened Words
  import opened Registers

  /** The documented input register map, by register number: the unsigned status and counter, then
      four signed values each for now, min, max and average. */
  function DocumentedInput(input: Input, reg: nat): int
    requires 1 <= reg <= 18
  {
    if reg == 1 then input.status
    else if reg == 2 then input.cntr
    else if reg <= 6 then input.now[reg - 3]
    else if reg <= 10 then input.min[reg - 7]
    else if reg <= 14 then input.max[reg - 11]
    else input.avg[reg - 15]
  }

  /** The number a master makes of a received word: registers from 3 on are signed. */
  function Interpreted(reg: nat, w: uint16): int {
    if reg <= 2 then w else AsInt16(w)
  }

  predicate IsInputRegister(a: int) {
    1 <= a <= 18
  }

  predicate IsHoldingRegister(a: int) {
    31 <= a <= 32
  }

  /** Which windows are accepted: those inside the map, and the empty ones up to its end. */
  lemma AcceptedExactly(address: uint16, nregs: uint16, data: seq<uint8>)
    ensures ReadInput(address, nregs).Accepted()
       <==> 1 <= address <= 19 && forall a :: address <= a < address + nregs ==> IsInputRegister(a)
    ensures ReadHolding(address, nregs).Accepted()
       <==> 31 <= address <= 33 && forall a :: address <= a < address + nregs ==> IsHoldingRegister(a)
    ensures WriteHolding(address, nregs, data).Accepted()
       <==> 31 <= address <= 33 && forall a :: address <= a < address + nregs ==> IsHoldingRegister(a)
  {
    var last := address + nregs - 1;
    assert IsInputRegister(last) <==> 1 <= last <= 18;
    assert IsHoldingRegister(last) <==> 31 <= last <= 32;
  }

  /** The word at documented register `reg`: the field modulo 2^16, which is two's complement. */
  lemma InputWordDocumented(input: Input, reg: nat)
    requires 1 <= reg <= 18
    ensures Interpreted(reg, InputWords(input)[reg - 1]) == DocumentedInput(input, reg)
    ensures InputWords(input)[reg - 1] == DocumentedInput(input, reg) % 0x1_0000
  {
    var w := InputWords(input)[reg - 1];
    assert w == (if reg <= 2 then DocumentedInput(input, reg) else AsUint16(DocumentedInput(input, reg)));
    hide InputWords, DocumentedInput;
  }

  lemma InputBytes(s: State, address: uint16, n: uint16)
    requires ReadInput(address, n).Accepted()
    ensures Respond(s, ReadInput(address, n)).bytes
         == EncodeWords(InputWords(s.input)[address - INPUT_START..address - INPUT_START + n])
  {
  }

  lemma HoldingBytes(s: State, address: uint16, n: uint16)
    requires ReadHolding(address, n).Accepted()
    ensures Respond(s, ReadHolding(address, n)).bytes
         == EncodeWords(HoldingWords(s.holding)[address - HOLDING_START..address - HOLDING_START + n])
  {
  }

  lemma EncodeWindowAt(words: seq<uint16>, i: nat, n: nat, k: nat)
    requires i + n <= |words| && k < n
    ensures var bytes := EncodeWords(words[i..i + n]);
            WireValue(bytes[2 * k], bytes[2 * k + 1]) == words[i + k]
  {
    EncodeAt(words[i..i + n], k);
  }

  /** An accepted input read carries two bytes per register, and register `k` of the window decodes to
      the field that the documented map gives for that register. */
  lemma InputWindowFields(s: State, address: uint16, nregs: uint16, k: nat)
    requires ReadInput(address, nregs).Accepted() && k < nregs
    ensures var answer := Respond(s, ReadInput(address, nregs));
            answer.err == NoErr && |answer.bytes| == 2 * nregs
            && var word := WireValue(answer.bytes[2 * k], answer.bytes[2 * k + 1]);
               Interpreted(address + k, word) == DocumentedInput(s.input, address + k)
               && word == DocumentedInput(s.input, address + k) % 0x1_0000
  {
    InputBytes(s, address, nregs);
    EncodeWindowAt(InputWords(s.input), address - INPUT_START, nregs, k);
    InputWordDocumented(s.input, address + k);
  }

  /** Two adjacent reads of one state give the bytes of the read of their union. */
  lemma AdjacentInputWindows(s: State, address: uint16, n: uint16, m: uint16)
    requires n + m < 0x1_0000 && ReadInput(address, n + m).Accepted()
    ensures Respond(s, ReadInput(address, n + m)).bytes
         == Respond(s, ReadInput(address, n)).bytes + Respond(s, ReadInput(address + n, m)).bytes
  {
    hide InputWords, EncodeWords;
    var words, i := InputWords(s.input), address - INPUT_START;
    InputBytes(s, address, n + m);
    InputBytes(s, address, n);
    InputBytes(s, address + n, m);
    EncodeSplit(words, i, n, m);
  }

  lemma AdjacentHoldingWindows(s: State, address: uint16, n: uint16, m: uint16)
    requires n + m < 0x1_0000 && ReadHolding(address, n + m).Accepted()
    ensures Respond(s, ReadHolding(address, n + m)).bytes
         == Respond(s, ReadHolding(address, n)).bytes + Respond(s, ReadHolding(address + n, m)).bytes
  {
    hide HoldingWords, EncodeWords;
    var words, i := HoldingWords(s.holding), address - HOLDING_START;
    HoldingBytes(s, address, n + m);
    HoldingBytes(s, address, n);
    HoldingBytes(s, address + n, m);
    EncodeSplit(words, i, n, m);
  }

  lemma EncodeSplit(words: seq<uint16>, i: nat, n: nat, m: nat)
    requires i + n + m <= |words|
    ensures EncodeWords(words[i..i + (n + m)])
         == EncodeWords(words[i..i + n]) + EncodeWords(words[i + n..i + n + m])
  {
    assert words[i..i + (n + m)] == words[i..i + n] + words[i + n..i + n + m];
    EncodeConcat(words[i..i + n], words[i + n..i + n + m]);
  }

  lemma StoredWindow(h: Holding, index: nat, ws: seq<uint16>)
    requires index + |ws| <= HOLDING_NREGS
    ensures HoldingWords(StoreWords(h, index, ws))[index..index + |ws|] == ws
  {
  }

  /** Reading back a written window gives the written bytes. */
  lemma WriteThenRead(s: State, req: Request)
    requires req.WriteHolding? && req.Valid() && req.Accepted()
    ensures Respond(ServeSection(s, req), ReadHolding(req.address, req.nregs)) == Response(NoErr, req.data)
  {
    var ws := DecodeWords(req.data);
    StoredWindow(s.holding, req.Index(), ws);
    HoldingBytes(ServeSection(s, req), req.address, req.nregs);
    EncodeDecode(req.data);
  }

  /** A write changes exactly the registers it names, to the big-endian value of their two bytes. */
  lemma WriteExactly(s: State, req: Request, k: nat)
    requires req.WriteHolding? && req.Valid() && req.Accepted() && k < HOLDING_NREGS
    ensures var written := k - req.Index();
            HoldingWords(ServeSection(s, req).holding)[k]
            == if 0 <= written < req.nregs then WireValue(req.data[2 * written], req.data[2 * written + 1])
               else HoldingWords(s.holding)[k]
    ensures ServeSection(s, req).input == s.input
  {
    var written := k - req.Index();
    if 0 <= written < req.nregs {
      DecodeAt(req.data, written);
    }
  }

  /** The value that a write of `data` from `address` on gives to holding register `a`. */
  function WrittenOr(address: uint16, nregs: uint16, data: seq<uint8>, a: int, otherwise: uint16): uint16
    requires |data| == 2 * nregs
  {
    if address <= a < address + nregs then WireValue(data[2 * (a - address)], data[2 * (a - address) + 1])
    else otherwise
  }

  /** Every write inside registers 31 and 32 is carried out, register by register. */
  lemma WriteCarriedOut(s: State, address: uint16, nregs: uint16, data: seq<uint8>)
    requires 31 <= address && address + nregs <= 33 && |data| == 2 * nregs
    ensures var t := ServeSection(s, WriteHolding(address, nregs, data));
            && t.holding.interval == WrittenOr(address, nregs, data, 31, s.holding.interval)
            && t.holding.rstStats == WrittenOr(address, nregs, data, 32, s.holding.rstStats)
            && t.input == s.input
  {
    var req := WriteHolding(address, nregs, data);
    WriteExactly(s, req, 0);
    WriteExactly(s, req, 1);
  }

  /** A rejected request changes nothing and sends no bytes. Reads never change anything. */
  lemma RejectedInert(s: State, req: Request)
    requires req.Valid()
    ensures !req.Accepted() ==> ServeSection(s, req) == s && Respond(s, req) == Response(NoReg, [])
    ensures !req.WriteHolding? ==> ServeSection(s, req) == s
    ensures req.Accepted() ==> Respond(s, req).err == NoErr
  {
  }
}
