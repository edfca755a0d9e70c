/** The environment block of a program: printed under a 256-byte bound, and read back. */
module Environment {
  import opened Machine
  import opened AliasName

  const CAP: nat := 0x100
  const VARIABLES_END: nat := 0xF8
  const COMSPEC := "COMSPEC=C:\\COMMAND.COM"
  const PATH_PREFIX := "PATH="
  const DEFAULT_PATH := "C:\\"
  const PROMPT := "PROMPT=$p$g"
  const DEFAULT_PROGRAM := "C:\\PROGRAM.COM"

  datatype Card = Card(ioBase: Word, irq: Byte, dma8: Byte, dma16: Byte, kind: Byte, mpuBase: Word, emu8kBase: Word)

  const DEFAULT_CARD := Card(0x220, 5, 1, 0, 3, 0, 0)

  /** The bytes of a text. */
  function Bytes(s: string): (r: seq<Byte>)
    ensures |r| == |s| && forall i :: 0 <= i < |s| ==> r[i] == s[i] as int % 0x100
  {
    seq(|s|, i requires 0 <= i < |s| => s[i] as int % 0x100)
  }

  // ---- what is printed ----

  /** Text after what is there, clipped at `end`. */
  function Put(out: seq<Byte>, end: nat, text: seq<Byte>): (r: seq<Byte>)
    ensures |out| <= |r| <= Max(|out|, end) && r[..|out|] == out
  {
    out + text[..Min(|text|, Max(0, end - |out|))]
  }

  /** Clipping piece by piece is clipping the whole. */
  lemma PutConcat(out: seq<Byte>, end: nat, a: seq<Byte>, b: seq<Byte>)
    ensures Put(Put(out, end, a), end, b) == Put(out, end, a + b)
  {
    var room := Max(0, end - |out|);
    if |a| <= room {
      assert (a + b)[..Min(|a + b|, room)] == a + b[..Min(|b|, room - |a|)];
      assert a[..|a|] == a;
    } else {
      assert (a + b)[..room] == a[..room];
    }
  }

  function HexDigit(n: nat): Byte
    requires n < 16
  {
    if n < 10 then 0x30 + n else 0x37 + n
  }

  function ThreeHexDigits(value: Word): seq<Byte> {
    [HexDigit(value / 0x100 % 16), HexDigit(value / 0x10 % 16), HexDigit(value % 16)]
  }

  function HexValue(c: Byte): nat {
    if c < 0x41 then Max(0, c - 0x30) else c - 0x37
  }

  /** Read as hex the three digits give the port back, less whatever is above twelve bits. */
  lemma HexReadsBack(value: Word)
    ensures var d := ThreeHexDigits(value);
            HexValue(d[0]) * 0x100 + HexValue(d[1]) * 0x10 + HexValue(d[2]) == value % 0x1000
  {
    HexDigitReads(value / 0x100 % 16);
    HexDigitReads(value / 0x10 % 16);
    HexDigitReads(value % 16);
    hide HexDigit, HexValue;
    ThreeNibbles(value);
  }

  lemma HexDigitReads(n: nat)
    requires n < 16
    ensures HexValue(HexDigit(n)) == n
  {
  }

  lemma ThreeNibbles(value: Word)
    ensures value / 0x100 % 16 * 0x100 + value / 0x10 % 16 * 0x10 + value % 16 == value % 0x1000
  {
    var top, high, middle, low := value / 0x1000, value / 0x100 % 16, value / 0x10 % 16, value % 16;
    Nibble(value / 0x100);
    Nibble(value / 0x10);
    Nibble(value);
    assert value / 0x10 / 16 == value / 0x100 && value / 0x100 / 16 == top;
    assert value == 0x1000 * top + (0x100 * high + 0x10 * middle + low);
  }

  lemma Nibble(n: nat)
    ensures n == n / 16 * 16 + n % 16
  {
  }

  function DecimalBytes(n: nat): seq<Byte> {
    Bytes(Decimal(n))
  }

  function Optional(isThere: bool, text: seq<Byte>): seq<Byte> {
    if isThere then text else []
  }

  /** The port, the IRQ and the 8-bit channel. */
  function BlasterFront(card: Card): seq<Byte> {
    (Bytes("BLASTER=A") + ThreeHexDigits(card.ioBase))
    + (Bytes(" I") + DecimalBytes(card.irq))
    + (Bytes(" D") + DecimalBytes(card.dma8))
  }

  /** "BLASTER=A220 I5 D1 T3", with a part for each further setting the card advertises. */
  function BlasterText(card: Card): seq<Byte> {
    BlasterFront(card)
    + Optional(card.dma16 != 0, Bytes(" H") + DecimalBytes(card.dma16))
    + Optional(card.mpuBase != 0, Bytes(" P") + ThreeHexDigits(card.mpuBase))
    + Optional(card.emu8kBase != 0, Bytes(" E") + ThreeHexDigits(card.emu8kBase))
    + (Bytes(" T") + DecimalBytes(card.kind))
  }

  function CardOf(card: Option<Card>): Card {
    if card.None? then DEFAULT_CARD else card.value
  }

  /** A text that may be missing or empty. */
  function OrDefault(text: seq<Byte>, default: string): seq<Byte> {
    if text == [] then Bytes(default) else text
  }

  predicate IsLineEnd(c: Byte) {
    c == 0x0A || c == 0x0D || c == 0x3B
  }

  function LineLength(text: seq<Byte>): (k: nat)
    ensures k <= |text| && (forall i :: 0 <= i < k ==> !IsLineEnd(text[i])) && (k < |text| ==> IsLineEnd(text[k]))
  {
    if text == [] || IsLineEnd(text[0]) then 0 else 1 + LineLength(text[1..])
  }

  function SkipLineEnds(text: seq<Byte>): (r: seq<Byte>)
    ensures |r| <= |text| && (text != [] && IsLineEnd(text[0]) ==> |r| < |text|)
    ensures forall k :: 0 <= k < |r| ==> r[k] in text
  {
    if text == [] || !IsLineEnd(text[0]) then text else SkipLineEnds(text[1..])
  }

  /** The entries of the knob's text: no blank lines, no comments. */
  function Entries(text: seq<Byte>): seq<seq<Byte>>
    decreases |text|
  {
    if text == [] then []
    else
      var k := LineLength(text);
      (if k > 0 && text[0] != 0x23 then [text[..k]] else []) + Entries(SkipLineEnds(text[k..]))
  }

  /** The entries that fit whole, in order, when `used` bytes are taken already. */
  function Fitting(used: nat, entries: seq<seq<Byte>>): seq<seq<Byte>>
    decreases |entries|
  {
    if entries == [] then []
    else if used + |entries[0]| + 1 <= VARIABLES_END then [entries[0]] + Fitting(used + |entries[0]| + 1, entries[1..])
    else Fitting(used, entries[1..])
  }

  /** Texts one after the other, each with its NUL. */
  function Terminated(texts: seq<seq<Byte>>): seq<Byte> {
    if texts == [] then [] else texts[0] + [0] + Terminated(texts[1..])
  }

  function Variable(out: seq<Byte>, text: seq<Byte>): seq<Byte> {
    Put(out, VARIABLES_END, text) + [0]
  }

  /** The four standard variables, each clipped at the reserve. */
  function Standard(path: seq<Byte>, card: Card): seq<Byte> {
    Variable(Variable(Variable(Variable([], Bytes(COMSPEC)), Bytes(PATH_PREFIX) + OrDefault(path, DEFAULT_PATH)),
                      Bytes(PROMPT)),
             BlasterText(card))
  }

  function Block(program: seq<Byte>, path: seq<Byte>, card: Card, extra: seq<Byte>): seq<Byte> {
    var variables := Standard(path, card);
    Put(variables + Terminated(Fitting(|variables|, Entries(extra))) + [0, 1, 0], CAP - 1,
        OrDefault(program, DEFAULT_PROGRAM)) + [0]
  }

  // ---- the bound ----

  lemma {:induction false} FittingFits(used: nat, entries: seq<seq<Byte>>)
    ensures used + |Terminated(Fitting(used, entries))| <= Max(used, VARIABLES_END)
    decreases |entries|
  {
    if entries != [] {
      if used + |entries[0]| + 1 <= VARIABLES_END {
        FittingFits(used + |entries[0]| + 1, entries[1..]);
        assert Fitting(used, entries)[1..] == Fitting(used + |entries[0]| + 1, entries[1..]);
      } else {
        FittingFits(used, entries[1..]);
      }
    }
  }

  /**
   * Whatever the program path, the PATH, the card and the extra text
   * are, the block is no longer than its 256 bytes.
   */
  lemma BlockFits(program: seq<Byte>, path: seq<Byte>, card: Card, extra: seq<Byte>)
    ensures |Standard(path, card)| <= VARIABLES_END + 3
    ensures |Block(program, path, card, extra)| <= 256
  {
    hide BlasterText, Entries;
    FittingFits(|Standard(path, card)|, Entries(extra));
  }

  /** And with a PATH and a program path long enough it is exactly 256: the bound is met. */
  lemma BlockMeetsCap(program: seq<Byte>, path: seq<Byte>, card: Card, extra: seq<Byte>)
    requires |path| >= CAP && |program| >= CAP
    ensures |Block(program, path, card, extra)| == 256
  {
    hide BlasterText, Entries;
    FittingFits(|Standard(path, card)|, Entries(extra));
  }

  // ---- reading it back ----

  datatype Parsed = Parsed(variables: seq<seq<Byte>>, count: nat, program: seq<Byte>)

  /** The texts up to an empty one. */
  function TextsOf(block: seq<Byte>): seq<seq<Byte>>
    decreases |block|
  {
    if UpToNul(block) == [] || |UpToNul(block)| == |block| then []
    else [UpToNul(block)] + TextsOf(block[|UpToNul(block)| + 1..])
  }

  /** What a program finds in its environment: the variables, the count word after them, and its own path. */
  function Parse(block: seq<Byte>): Parsed {
    var variables := TextsOf(block);
    var at := |Terminated(variables)| + 1;
    if at + 2 > |block| then Parsed(variables, 0, [])
    else Parsed(variables, WordOf(block[at], block[at + 1]), UpToNul(block[at + 2..]))
  }

  predicate IsText(s: seq<Byte>) {
    0 !in s
  }

  ghost predicate AllTexts(texts: seq<seq<Byte>>) {
    forall i :: 0 <= i < |texts| ==> texts[i] != [] && IsText(texts[i])
  }

  lemma {:induction false} UpToNulOf(s: seq<Byte>, rest: seq<Byte>)
    requires IsText(s)
    ensures UpToNul(s + [0] + rest) == s
  {
    var whole := s + [0] + rest;
    if s != [] {
      UpToNulOf(s[1..], rest);
      assert whole[1..] == s[1..] + [0] + rest;
    }
  }

  lemma {:induction false} TextsRead(texts: seq<seq<Byte>>, rest: seq<Byte>)
    requires AllTexts(texts)
    ensures TextsOf(Terminated(texts) + [0] + rest) == texts
    decreases |texts|
  {
    if texts == [] {
      UpToNulOf([], rest);
      assert Terminated(texts) + [0] + rest == [] + [0] + rest;
    } else {
      var s := texts[0];
      var tail := Terminated(texts[1..]) + [0] + rest;
      TextsRead(texts[1..], rest);
      UpToNulOf(s, tail);
      assert Terminated(texts) + [0] + rest == s + [0] + tail;
      assert (s + [0] + tail)[|s| + 1..] == tail;
    }
  }

  /** The standard variables, none of them clipped. */
  function StandardTexts(path: seq<Byte>, card: Card): seq<seq<Byte>> {
    [Bytes(COMSPEC), Bytes(PATH_PREFIX) + OrDefault(path, DEFAULT_PATH), Bytes(PROMPT), BlasterText(card)]
  }

  /** The four standard variables fit below the reserve. */
  predicate StandardFits(path: seq<Byte>, card: Card) {
    var t := StandardTexts(path, card);
    |t[0]| + 1 + |t[1]| + 1 + |t[2]| + 1 + |t[3]| <= VARIABLES_END
  }

  lemma VariableWhole(out: seq<Byte>, text: seq<Byte>)
    requires |out| + |text| <= VARIABLES_END
    ensures Variable(out, text) == out + (text + [0])
  {
    assert text[..|text|] == text;
  }

  lemma StandardWhole(path: seq<Byte>, card: Card)
    requires StandardFits(path, card)
    ensures Standard(path, card) == Terminated(StandardTexts(path, card))
  {
    hide Variable, BlasterText, Bytes;
    var t := StandardTexts(path, card);
    VariableWhole([], t[0]);
    VariableWhole(t[0] + [0], t[1]);
    VariableWhole(t[0] + [0] + (t[1] + [0]), t[2]);
    VariableWhole(t[0] + [0] + (t[1] + [0]) + (t[2] + [0]), t[3]);
    FourTerminated(t[0], t[1], t[2], t[3]);
    assert [] + (t[0] + [0]) == t[0] + [0];
  }

  lemma FourTerminated(a: seq<Byte>, b: seq<Byte>, c: seq<Byte>, d: seq<Byte>)
    ensures Terminated([a, b, c, d]) == a + [0] + (b + [0]) + (c + [0]) + (d + [0])
  {
    assert [a, b, c, d][1..] == [b, c, d] && [b, c, d][1..] == [c, d] && [c, d][1..] == [d] && [d][1..] == [];
    assert Terminated([d]) == d + [0] + [];
    assert Terminated([c, d]) == c + [0] + (d + [0]);
    assert Terminated([b, c, d]) == b + [0] + (c + [0] + (d + [0]));
  }

  lemma {:induction false} TerminatedConcat(a: seq<seq<Byte>>, b: seq<seq<Byte>>)
    ensures Terminated(a + b) == Terminated(a) + Terminated(b)
    decreases |a|
  {
    if a == [] {
      assert a + b == b;
    } else {
      TerminatedConcat(a[1..], b);
      assert (a + b)[1..] == a[1..] + b;
    }
  }

  lemma {:induction false} FittingTexts(used: nat, entries: seq<seq<Byte>>)
    requires AllTexts(entries)
    ensures AllTexts(Fitting(used, entries))
    decreases |entries|
  {
    if entries != [] {
      FittingTexts(if used + |entries[0]| + 1 <= VARIABLES_END then used + |entries[0]| + 1 else used, entries[1..]);
    }
  }

  lemma {:induction false} EntriesTexts(text: seq<Byte>)
    requires IsText(text)
    ensures AllTexts(Entries(text))
    decreases |text|
  {
    if text != [] {
      EntriesTexts(SkipLineEnds(text[LineLength(text)..]));
    }
  }

  lemma DecimalIsText(n: nat)
    ensures IsText(DecimalBytes(n))
  {
    DecimalNumeral(n);
  }

  lemma NamesAreTexts()
    ensures IsText(Bytes(COMSPEC)) && IsText(Bytes(PATH_PREFIX)) && IsText(Bytes(DEFAULT_PATH)) && IsText(Bytes(PROMPT))
    ensures |Bytes(COMSPEC)| == 22 && |Bytes(PATH_PREFIX)| == 5 && |Bytes(PROMPT)| == 11
  {
  }

  lemma StandardAreTexts(path: seq<Byte>, card: Card)
    requires IsText(path)
    ensures AllTexts(StandardTexts(path, card))
  {
    BlasterIsText(card);
    NamesAreTexts();
    hide Bytes, BlasterText, IsText;
    ConcatIsText(Bytes(PATH_PREFIX), OrDefault(path, DEFAULT_PATH));
  }

  lemma ConcatIsText(a: seq<Byte>, b: seq<Byte>)
    requires IsText(a) && IsText(b)
    ensures IsText(a + b)
  {
  }

  lemma DecimalPartIsText(prefix: string, n: nat)
    requires IsText(Bytes(prefix))
    ensures IsText(Bytes(prefix) + DecimalBytes(n))
  {
    DecimalIsText(n);
  }

  lemma HexPartIsText(prefix: string, value: Word)
    requires IsText(Bytes(prefix))
    ensures IsText(Bytes(prefix) + ThreeHexDigits(value))
  {
  }

  lemma LabelsAreTexts()
    ensures IsText(Bytes("BLASTER=A")) && IsText(Bytes(" I")) && IsText(Bytes(" D")) && IsText(Bytes(" H"))
    ensures IsText(Bytes(" P")) && IsText(Bytes(" E")) && IsText(Bytes(" T"))
  {
  }

  lemma BlasterIsText(card: Card)
    ensures IsText(BlasterText(card)) && BlasterText(card) != []
  {
    assert |BlasterFront(card)| >= 9;
    hide Bytes, DecimalBytes, ThreeHexDigits, IsText;
    LabelsAreTexts();
    HexPartIsText("BLASTER=A", card.ioBase);
    DecimalPartIsText(" I", card.irq);
    DecimalPartIsText(" D", card.dma8);
    DecimalPartIsText(" H", card.dma16);
    HexPartIsText(" P", card.mpuBase);
    HexPartIsText(" E", card.emu8kBase);
    DecimalPartIsText(" T", card.kind);
    NothingIsText();
    var text := Bytes("BLASTER=A") + ThreeHexDigits(card.ioBase);
    ConcatIsText(text, Bytes(" I") + DecimalBytes(card.irq));
    text := text + (Bytes(" I") + DecimalBytes(card.irq));
    ConcatIsText(text, Bytes(" D") + DecimalBytes(card.dma8));
    text := text + (Bytes(" D") + DecimalBytes(card.dma8));
    ConcatIsText(text, Optional(card.dma16 != 0, Bytes(" H") + DecimalBytes(card.dma16)));
    text := text + Optional(card.dma16 != 0, Bytes(" H") + DecimalBytes(card.dma16));
    ConcatIsText(text, Optional(card.mpuBase != 0, Bytes(" P") + ThreeHexDigits(card.mpuBase)));
    text := text + Optional(card.mpuBase != 0, Bytes(" P") + ThreeHexDigits(card.mpuBase));
    ConcatIsText(text, Optional(card.emu8kBase != 0, Bytes(" E") + ThreeHexDigits(card.emu8kBase)));
    text := text + Optional(card.emu8kBase != 0, Bytes(" E") + ThreeHexDigits(card.emu8kBase));
    ConcatIsText(text, Bytes(" T") + DecimalBytes(card.kind));
  }

  lemma NothingIsText()
    ensures IsText([])
  {
  }

  /**
   * The round trip: when the standard variables fit, parsing the block gives them, then exactly the extra
   * entries that fitted whole, in order, the count 1, and the program path as far as there is room.
   */
  lemma BlockReadsBack(program: seq<Byte>, path: seq<Byte>, card: Card, extra: seq<Byte>)
    requires IsText(program) && IsText(path) && IsText(extra) && StandardFits(path, card)
    ensures var texts := StandardTexts(path, card) + Fitting(|Standard(path, card)|, Entries(extra));
            var name := OrDefault(program, DEFAULT_PROGRAM);
            && |Terminated(texts)| + 3 < CAP
            && Parse(Block(program, path, card, extra))
                 == Parsed(texts, 1, name[..Min(|name|, CAP - 4 - |Terminated(texts)|)])
  {
    hide StandardTexts, Entries, Bytes, StandardFits, Standard, BlasterText, AllTexts, IsText, Terminated, Fitting,
        Put, Parse, OrDefault;
    var standard, fitting := StandardTexts(path, card), Fitting(|Standard(path, card)|, Entries(extra));
    BlockFits(program, path, card, extra);
    StandardWhole(path, card);
    StandardAreTexts(path, card);
    EntriesTexts(extra);
    FittingTexts(|Standard(path, card)|, Entries(extra));
    FittingFits(|Standard(path, card)|, Entries(extra));
    TextsConcat(standard, fitting);
    TerminatedConcat(standard, fitting);
    ProgramIsText(program);
    TailReads(standard + fitting, OrDefault(program, DEFAULT_PROGRAM), Block(program, path, card, extra));
  }

  lemma TextsConcat(a: seq<seq<Byte>>, b: seq<seq<Byte>>)
    requires AllTexts(a) && AllTexts(b)
    ensures AllTexts(a + b)
  {
  }

  lemma ProgramIsText(program: seq<Byte>)
    requires IsText(program)
    ensures IsText(OrDefault(program, DEFAULT_PROGRAM))
  {
    assert IsText(Bytes(DEFAULT_PROGRAM));
  }

  lemma TailReads(texts: seq<seq<Byte>>, name: seq<Byte>, block: seq<Byte>)
    requires AllTexts(texts) && IsText(name) && |Terminated(texts)| + 3 < CAP
    requires block == Put(Terminated(texts) + [0, 1, 0], CAP - 1, name) + [0]
    ensures Parse(block) == Parsed(texts, 1, name[..Min(|name|, CAP - 4 - |Terminated(texts)|)])
  {
    hide Terminated, TextsOf, UpToNul, AllTexts;
    var clipped := name[..Min(|name|, CAP - 4 - |Terminated(texts)|)];
    TailSplits(Terminated(texts), clipped, block);
    TextsRead(texts, [1, 0] + (clipped + [0] + []));
    UpToNulOf(clipped, []);
  }

  lemma TailSplits(t: seq<Byte>, clipped: seq<Byte>, block: seq<Byte>)
    requires block == t + [0, 1, 0] + clipped + [0]
    ensures block == t + [0] + ([1, 0] + (clipped + [0] + []))
    ensures block[|t| + 1] == 1 && block[|t| + 2] == 0 && block[|t| + 3..] == clipped + [0] + []
  {
  }

  // ---- the printer ----

  /** The block under construction: `out` from `at` on, and nothing outside the 256 bytes touched. */
  ghost predicate Printed(initial: seq<Byte>, memory: seq<Byte>, at: nat, out: seq<Byte>) {
    at + CAP <= |memory| && |out| <= CAP && SameOutside(initial, memory, at, at + CAP) && memory[at..at + |out|] == out
  }

  method PutByte(memory: array<Byte>, cursor: nat, b: Byte, ghost initial: seq<Byte>, ghost at: nat,
                 ghost out: seq<Byte>)
    returns (next: nat)
    requires Printed(initial, memory[..], at, out) && cursor == at + |out| && |out| < CAP
    modifies memory
    ensures Printed(initial, memory[..], at, out + [b]) && next == at + |out| + 1
  {
    memory[cursor] := b;
    next := cursor + 1;
    assert memory[..][at..at + |out| + 1] == memory[..][at..at + |out|] + [b];
    assert memory[..][at..at + |out|] == old(memory[..])[at..at + |out|];
  }

  method DosEnvPutBounded(memory: array<Byte>, start: nat, end: nat, text: seq<Byte>,
                          ghost initial: seq<Byte>, ghost at: nat, ghost out: seq<Byte>)
    returns (cursor: nat)
    requires Printed(initial, memory[..], at, out) && start == at + |out| && at <= end <= at + CAP
    modifies memory
    ensures Printed(initial, memory[..], at, Put(out, end - at, text)) && cursor == at + |Put(out, end - at, text)|
  {
    hide Printed;
    cursor := start;
    var index := 0;
    assert out + text[..0] == out;
    while index < |text| && cursor < end
      invariant 0 <= index <= |text| && cursor == start + index
      invariant cursor <= end || index == 0
      invariant Printed(initial, memory[..], at, out + text[..index])
    {
      assert out + text[..index] + [text[index]] == out + text[..index + 1];
      cursor := PutByte(memory, cursor, text[index], initial, at, out + text[..index]);
      index := index + 1;
    }
  }

  method DosEnvPutDecimal(memory: array<Byte>, start: nat, end: nat, value: nat,
                          ghost initial: seq<Byte>, ghost at: nat, ghost out: seq<Byte>)
    returns (cursor: nat)
    requires value < 0x1_0000_0000
    requires Printed(initial, memory[..], at, out) && start == at + |out| && at <= end <= at + CAP
    modifies memory
    ensures Printed(initial, memory[..], at, Put(out, end - at, DecimalBytes(value)))
              && cursor == at + |Put(out, end - at, DecimalBytes(value))|
  {
    var digits := DecimalDigits(value);
    cursor := DosEnvPutBounded(memory, start, end, digits, initial, at, out);
  }

  /** The digits, last one first into the scratch buffer, whose twelve places are never all needed. */
  method DecimalDigits(value: nat) returns (digits: seq<Byte>)
    requires value < 0x1_0000_0000
    ensures digits == DecimalBytes(value)
  {
    digits := [];
    var remaining: nat := value;
    if value == 0 {
      assert DecimalBytes(0) == [0x30];
      return [0x30];
    }
    var digitCount := 0;
    while remaining != 0 && digitCount < 12
      invariant 0 <= digitCount <= 12
      invariant remaining == 0 ==> digits == DecimalBytes(value)
      invariant remaining > 0 ==> DecimalBytes(remaining) + digits == DecimalBytes(value)
      invariant remaining < LimitAfter(digitCount)
    {
      DecimalStep(remaining, digits);
      digits := [0x30 + remaining % 10] + digits;
      remaining := remaining / 10;
      digitCount := digitCount + 1;
    }
  }

  /** A DWORD divided by ten that often is below this. */
  ghost function LimitAfter(digitCount: nat): nat
    requires digitCount <= 12
  {
    [0x1_0000_0000, 429496730, 42949673, 4294968, 429497, 42950, 4295, 430, 43, 5, 1, 1, 1][digitCount]
  }

  lemma DecimalStep(n: nat, after: seq<Byte>)
    ensures n >= 10 ==> DecimalBytes(n) + after == DecimalBytes(n / 10) + ([0x30 + n % 10] + after)
    ensures n < 10 ==> DecimalBytes(n) + after == [0x30 + n % 10] + after
  {
    if n >= 10 {
      assert DecimalBytes(n) == DecimalBytes(n / 10) + [0x30 + n % 10];
    } else {
      assert DecimalBytes(n) == [0x30 + n % 10];
    }
  }

  /** Three hex digits, the highest first. */
  method DosEnvPutThreeHexDigits(memory: array<Byte>, start: nat, end: nat, value: Word,
                                 ghost initial: seq<Byte>, ghost at: nat, ghost out: seq<Byte>)
    returns (cursor: nat)
    requires Printed(initial, memory[..], at, out) && start == at + |out| && at <= end <= at + CAP
    modifies memory
    ensures Printed(initial, memory[..], at, Put(out, end - at, ThreeHexDigits(value)))
              && cursor == at + |Put(out, end - at, ThreeHexDigits(value))|
  {
    hide Printed, HexDigit, Put;
    cursor := start;
    var divisor := 0x100;
    var done := 0;
    ghost var digits := ThreeHexDigits(value);
    PutNothing(out, end - at);
    assert digits[..0] == [];
    while done < 3
      invariant 0 <= done <= 3 && divisor == [0x100, 0x10, 1, 0][done]
      invariant cursor == at + |Put(out, end - at, digits[..done])|
      invariant Printed(initial, memory[..], at, Put(out, end - at, digits[..done]))
    {
      ghost var soFar := Put(out, end - at, digits[..done]);
      PutConcat(out, end - at, digits[..done], [digits[done]]);
      assert digits[..done] + [digits[done]] == digits[..done + 1];
      PutOne(soFar, end - at, digits[done]);
      if cursor < end {
        cursor := PutByte(memory, cursor, HexDigit(value / divisor % 16), initial, at, soFar);
      }
      divisor := divisor / 16;
      done := done + 1;
    }
    assert digits[..3] == digits;
  }

  lemma PutOne(out: seq<Byte>, end: nat, b: Byte)
    ensures Put(out, end, [b]) == if |out| < end then out + [b] else out
  {
  }

  /** "BLASTER=" and the card's numbers, a part for each setting it advertises. */
  method DosEnvPutBlaster(memory: array<Byte>, start: nat, end: nat, card: Option<Card>,
                          ghost initial: seq<Byte>, ghost at: nat, ghost out: seq<Byte>)
    returns (cursor: nat)
    requires Printed(initial, memory[..], at, out) && start == at + |out| && at <= end <= at + CAP
    modifies memory
    ensures Printed(initial, memory[..], at, Put(out, end - at, BlasterText(CardOf(card))))
    ensures cursor == at + |Put(out, end - at, BlasterText(CardOf(card)))|
  {
    hide Printed, Put, Bytes, DecimalBytes, ThreeHexDigits, Optional, CardOf, BlasterFront;
    var c := CardOf(card);
    ghost var text: seq<Byte>;
    cursor, text := PutBlasterFront(memory, start, end, c, initial, at, out);
    cursor, text := PutOptionalDecimal(memory, cursor, end, " H", c.dma16, initial, at, out, text);
    cursor, text := PutOptionalHex(memory, cursor, end, " P", c.mpuBase, initial, at, out, text);
    cursor, text := PutOptionalHex(memory, cursor, end, " E", c.emu8kBase, initial, at, out, text);
    cursor, text := PutDecimalPart(memory, cursor, end, " T", c.kind, initial, at, out, text);
  }

  method PutBlasterFront(memory: array<Byte>, start: nat, end: nat, c: Card,
                         ghost initial: seq<Byte>, ghost at: nat, ghost out: seq<Byte>)
    returns (cursor: nat, ghost text: seq<Byte>)
    requires Printed(initial, memory[..], at, out) && start == at + |out| && at <= end <= at + CAP
    modifies memory
    ensures text == BlasterFront(c)
    ensures Printed(initial, memory[..], at, Put(out, end - at, text)) && cursor == at + |Put(out, end - at, text)|
  {
    hide Printed, Put, Bytes, DecimalBytes, ThreeHexDigits;
    PutNothing(out, end - at);
    cursor, text := PutHexPart(memory, start, end, "BLASTER=A", c.ioBase, initial, at, out, []);
    assert text == Bytes("BLASTER=A") + ThreeHexDigits(c.ioBase);
    cursor, text := PutDecimalPart(memory, cursor, end, " I", c.irq, initial, at, out, text);
    cursor, text := PutDecimalPart(memory, cursor, end, " D", c.dma8, initial, at, out, text);
  }

  lemma PutNothing(out: seq<Byte>, end: nat)
    ensures Put(out, end, []) == out
  {
  }

  /** A label and a decimal number, after the `text` that is already put. */
  method PutDecimalPart(memory: array<Byte>, start: nat, end: nat, prefix: string, value: nat,
                        ghost initial: seq<Byte>, ghost at: nat, ghost out: seq<Byte>, ghost text: seq<Byte>)
    returns (cursor: nat, ghost after: seq<Byte>)
    requires value < 0x1_0000_0000 && at <= end <= at + CAP
    requires Printed(initial, memory[..], at, Put(out, end - at, text)) && start == at + |Put(out, end - at, text)|
    modifies memory
    ensures after == text + (Bytes(prefix) + DecimalBytes(value))
    ensures Printed(initial, memory[..], at, Put(out, end - at, after)) && cursor == at + |Put(out, end - at, after)|
  {
    hide Printed, Put, Bytes, DecimalBytes;
    after := text + (Bytes(prefix) + DecimalBytes(value));
    cursor := DosEnvPutBounded(memory, start, end, Bytes(prefix), initial, at, Put(out, end - at, text));
    cursor := DosEnvPutDecimal(memory, cursor, end, value, initial, at,
                               Put(Put(out, end - at, text), end - at, Bytes(prefix)));
    PutConcat(Put(out, end - at, text), end - at, Bytes(prefix), DecimalBytes(value));
    PutConcat(out, end - at, text, Bytes(prefix) + DecimalBytes(value));
  }

  /** A label and three hex digits, after the `text` that is already put. */
  method PutHexPart(memory: array<Byte>, start: nat, end: nat, prefix: string, value: Word,
                    ghost initial: seq<Byte>, ghost at: nat, ghost out: seq<Byte>, ghost text: seq<Byte>)
    returns (cursor: nat, ghost after: seq<Byte>)
    requires at <= end <= at + CAP
    requires Printed(initial, memory[..], at, Put(out, end - at, text)) && start == at + |Put(out, end - at, text)|
    modifies memory
    ensures after == text + (Bytes(prefix) + ThreeHexDigits(value))
    ensures Printed(initial, memory[..], at, Put(out, end - at, after)) && cursor == at + |Put(out, end - at, after)|
  {
    hide Printed, Put, Bytes, ThreeHexDigits;
    after := text + (Bytes(prefix) + ThreeHexDigits(value));
    cursor := DosEnvPutBounded(memory, start, end, Bytes(prefix), initial, at, Put(out, end - at, text));
    cursor := DosEnvPutThreeHexDigits(memory, cursor, end, value, initial, at,
                                      Put(Put(out, end - at, text), end - at, Bytes(prefix)));
    PutConcat(Put(out, end - at, text), end - at, Bytes(prefix), ThreeHexDigits(value));
    PutConcat(out, end - at, text, Bytes(prefix) + ThreeHexDigits(value));
  }

  /** The part only when its number is not 0. */
  method PutOptionalDecimal(memory: array<Byte>, start: nat, end: nat, prefix: string, value: nat,
                            ghost initial: seq<Byte>, ghost at: nat, ghost out: seq<Byte>, ghost text: seq<Byte>)
    returns (cursor: nat, ghost after: seq<Byte>)
    requires value < 0x1_0000_0000 && at <= end <= at + CAP
    requires Printed(initial, memory[..], at, Put(out, end - at, text)) && start == at + |Put(out, end - at, text)|
    modifies memory
    ensures after == text + Optional(value != 0, Bytes(prefix) + DecimalBytes(value))
    ensures Printed(initial, memory[..], at, Put(out, end - at, after)) && cursor == at + |Put(out, end - at, after)|
  {
    hide Printed, Put, Bytes, DecimalBytes;
    cursor, after := start, text + [];
    assert text + [] == text;
    if value != 0 {
      cursor, after := PutDecimalPart(memory, start, end, prefix, value, initial, at, out, text);
    }
  }

  method PutOptionalHex(memory: array<Byte>, start: nat, end: nat, prefix: string, value: Word,
                        ghost initial: seq<Byte>, ghost at: nat, ghost out: seq<Byte>, ghost text: seq<Byte>)
    returns (cursor: nat, ghost after: seq<Byte>)
    requires at <= end <= at + CAP
    requires Printed(initial, memory[..], at, Put(out, end - at, text)) && start == at + |Put(out, end - at, text)|
    modifies memory
    ensures after == text + Optional(value != 0, Bytes(prefix) + ThreeHexDigits(value))
    ensures Printed(initial, memory[..], at, Put(out, end - at, after)) && cursor == at + |Put(out, end - at, after)|
  {
    hide Printed, Put, Bytes, ThreeHexDigits;
    cursor, after := start, text + [];
    assert text + [] == text;
    if value != 0 {
      cursor, after := PutHexPart(memory, start, end, prefix, value, initial, at, out, text);
    }
  }

  /** A variable clipped at the reserve, and its NUL, which may stand past it. */
  method PutVariable(memory: array<Byte>, start: nat, text: seq<Byte>, at: nat,
                     ghost initial: seq<Byte>, ghost out: seq<Byte>)
    returns (cursor: nat)
    requires Printed(initial, memory[..], at, out) && start == at + |out| && |out| < CAP - 1
    modifies memory
    ensures Printed(initial, memory[..], at, Variable(out, text)) && cursor == at + |Variable(out, text)|
  {
    hide Printed;
    cursor := DosEnvPutBounded(memory, start, at + VARIABLES_END, text, initial, at, out);
    cursor := PutByte(memory, cursor, 0, initial, at, Put(out, VARIABLES_END, text));
  }

  /** The extra text's entries, each whole or not at all. */
  method PutEntries(memory: array<Byte>, start: nat, extra: seq<Byte>, at: nat,
                    ghost initial: seq<Byte>, ghost out: seq<Byte>)
    returns (cursor: nat)
    requires Printed(initial, memory[..], at, out) && start == at + |out| && |out| <= VARIABLES_END + 3
    modifies memory
    ensures Printed(initial, memory[..], at, out + Terminated(Fitting(|out|, Entries(extra))))
    ensures cursor == at + |out + Terminated(Fitting(|out|, Entries(extra)))|
  {
    hide Printed, LineLength, SkipLineEnds, Entries, Fitting, Terminated;
    cursor := start;
    var remaining := extra;
    ghost var now := out;
    ghost var goal := out + Terminated(Fitting(|out|, Entries(extra)));
    while remaining != []
      invariant Printed(initial, memory[..], at, now) && cursor == at + |now| && |now| <= VARIABLES_END + 3
      invariant now + Terminated(Fitting(|now|, Entries(remaining))) == goal
      decreases |remaining|
    {
      var line := remaining;
      var lineLength := ScanLine(line);
      EntriesStep(line, lineLength, |now|);
      if lineLength > 0 && line[0] != 0x23 && cursor + lineLength + 1 <= at + VARIABLES_END {
        ghost var entry := line[..lineLength];
        FittingStep(now, entry, Entries(SkipLineEnds(line[lineLength..])));
        cursor := DosEnvPutBounded(memory, cursor, at + VARIABLES_END, line[..lineLength], initial, at, now);
        assert Put(now, VARIABLES_END, entry) == now + entry;
        cursor := PutByte(memory, cursor, 0, initial, at, now + entry);
        now := now + entry + [0];
      }
      remaining := SkipEnds(line, lineLength);
    }
    NoEntries(|now|);
    assert now + [] == now;
  }

  method ScanLine(line: seq<Byte>) returns (lineLength: nat)
    ensures lineLength == LineLength(line) <= |line|
  {
    lineLength := 0;
    while lineLength < |line| && !IsLineEnd(line[lineLength])
      invariant lineLength <= |line| && LineLength(line) == lineLength + LineLength(line[lineLength..])
    {
      lineLength := lineLength + 1;
    }
  }

  method SkipEnds(line: seq<Byte>, lineLength: nat) returns (remaining: seq<Byte>)
    requires lineLength == LineLength(line) <= |line| && line != []
    ensures remaining == SkipLineEnds(line[lineLength..]) && |remaining| < |line|
  {
    remaining := line[lineLength..];
    while remaining != [] && IsLineEnd(remaining[0])
      invariant SkipLineEnds(line[lineLength..]) == SkipLineEnds(remaining)
    {
      remaining := remaining[1..];
    }
  }

  lemma EntriesStep(line: seq<Byte>, k: nat, used: nat)
    requires line != [] && k == LineLength(line) <= |line|
    ensures var rest := Entries(SkipLineEnds(line[k..]));
            && (k > 0 && line[0] != 0x23 ==> Entries(line) == [line[..k]] + rest)
            && (!(k > 0 && line[0] != 0x23) ==> Entries(line) == rest)
            && (k > 0 && line[0] != 0x23 && used + k + 1 > VARIABLES_END ==>
                Fitting(used, Entries(line)) == Fitting(used, rest))
  {
    var rest := Entries(SkipLineEnds(line[k..]));
    assert [] + rest == rest;
    assert ([line[..k]] + rest)[1..] == rest;
  }

  lemma FittingStep(now: seq<Byte>, entry: seq<Byte>, rest: seq<seq<Byte>>)
    requires |now| + |entry| + 1 <= VARIABLES_END
    ensures now + Terminated(Fitting(|now|, [entry] + rest)) == (now + entry + [0])
              + Terminated(Fitting(|now + entry + [0]|, rest))
  {
    var fitting := Fitting(|now| + |entry| + 1, rest);
    assert ([entry] + rest)[1..] == rest;
    assert ([entry] + fitting)[1..] == fitting;
    assert Terminated([entry] + fitting) == entry + [0] + Terminated(fitting);
  }

  lemma NoEntries(used: nat)
    ensures Terminated(Fitting(used, Entries([]))) == []
  {
  }

  /**
   * DosEnvBuildWithCard: the block, whatever the inputs; no byte outside its 256 changes, and the length
   * returned is the block's.
   */
  method DosEnvBuildWithCard(memory: array<Byte>, environmentSegment: Word, programPath: seq<Byte>,
                             pathVariable: seq<Byte>,
                             card: Option<Card>, extra: seq<Byte>)
    returns (length: nat)
    requires 16 * environmentSegment + CAP <= memory.Length
    modifies memory
    ensures var at, block := 16 * environmentSegment, Block(programPath, pathVariable, CardOf(card), extra);
            && length == |block| <= 256 && memory[at..at + length] == block
            && SameOutside(old(memory[..]), memory[..], at, at + 256)
  {
    hide Bytes, BlasterText, Entries, Fitting, Terminated;
    ghost var initial := memory[..];
    var at := 16 * (environmentSegment as int);
    BlockFits(programPath, pathVariable, CardOf(card), extra);
    var cursor := PutStandard(memory, at, pathVariable, card, initial);
    ghost var variables := Standard(pathVariable, CardOf(card));
    cursor := PutEntries(memory, cursor, extra, at, initial, variables);
    FittingFits(|variables|, Entries(extra));
    ghost var out := variables + Terminated(Fitting(|variables|, Entries(extra)));
    cursor := PutTail(memory, cursor, OrDefault(programPath, DEFAULT_PROGRAM), at, initial, out);
    length := cursor - at;
  }

  method PutStandard(memory: array<Byte>, at: nat, pathVariable: seq<Byte>, card: Option<Card>,
                     ghost initial: seq<Byte>)
    returns (cursor: nat)
    requires at + CAP <= memory.Length && memory[..] == initial
    modifies memory
    ensures Printed(initial, memory[..], at, Standard(pathVariable, CardOf(card)))
    ensures cursor == at + |Standard(pathVariable, CardOf(card))|
  {
    hide Bytes, BlasterText;
    ghost var out: seq<Byte> := [];
    cursor := PutVariable(memory, at, Bytes(COMSPEC), at, initial, out);
    out := Variable(out, Bytes(COMSPEC));
    cursor := DosEnvPutBounded(memory, cursor, at + VARIABLES_END, Bytes(PATH_PREFIX), initial, at, out);
    PutConcat(out, VARIABLES_END, Bytes(PATH_PREFIX), OrDefault(pathVariable, DEFAULT_PATH));
    out := Put(out, VARIABLES_END, Bytes(PATH_PREFIX));
    cursor := PutVariable(memory, cursor, OrDefault(pathVariable, DEFAULT_PATH), at, initial, out);
    out := Variable(out, OrDefault(pathVariable, DEFAULT_PATH));
    cursor := PutVariable(memory, cursor, Bytes(PROMPT), at, initial, out);
    out := Variable(out, Bytes(PROMPT));
    cursor := DosEnvPutBlaster(memory, cursor, at + VARIABLES_END, card, initial, at, out);
    cursor := PutByte(memory, cursor, 0, initial, at, Put(out, VARIABLES_END, BlasterText(CardOf(card))));
  }

  /** The NUL that ends the variables, the count word and the program path. */
  method PutTail(memory: array<Byte>, start: nat, program: seq<Byte>, at: nat, ghost initial: seq<Byte>,
                 ghost out: seq<Byte>)
    returns (cursor: nat)
    requires Printed(initial, memory[..], at, out) && start == at + |out| && |out| + 4 <= CAP
    modifies memory
    ensures Printed(initial, memory[..], at, Put(out + [0, 1, 0], CAP - 1, program) + [0])
    ensures cursor == at + |Put(out + [0, 1, 0], CAP - 1, program) + [0]|
  {
    hide Printed;
    cursor := PutByte(memory, start, 0, initial, at, out);
    cursor := PutByte(memory, cursor, 1, initial, at, out + [0]);
    cursor := PutByte(memory, cursor, 0, initial, at, out + [0] + [1]);
    assert out + [0] + [1] + [0] == out + [0, 1, 0];
    cursor := DosEnvPutBounded(memory, cursor, at + CAP - 1, program, initial, at, out + [0, 1, 0]);
    cursor := PutByte(memory, cursor, 0, initial, at, Put(out + [0, 1, 0], CAP - 1, program));
  }
}
