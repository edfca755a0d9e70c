/** What the block's texts say: BLASTER read as a sound driver reads it, and the knob's lines read as they were typed. */
module EnvironmentText {
  import opened Machine
  import opened AliasName
  import opened Environment

  // ---- reading numbers ----

  function DigitValue(c: Byte): nat {
    if '0' as int <= c <= '9' as int then c - '0' as int
    else if 'A' as int <= c <= 'F' as int then c - 'A' as int + 10
    else 0
  }

  /** The digits as a number in the given base. */
  function NumberIn(digits: seq<Byte>, base: nat): nat {
    if digits == [] then 0
    else NumberIn(digits[..|digits| - 1], base) * base + DigitValue(digits[|digits| - 1])
  }

  lemma {:induction false} DecimalReads(n: nat)
    ensures NumberIn(DecimalBytes(n), 10) == n
  {
    var bytes := DecimalBytes(n);
    if n < 10 {
      assert bytes[..0] == [] && bytes[0] == '0' as int + n;
    } else {
      DecimalReads(n / 10);
      assert Decimal(n) == Decimal(n / 10) + [Digit(n % 10)];
      assert bytes[..|bytes| - 1] == DecimalBytes(n / 10);
      assert bytes[|bytes| - 1] == '0' as int + n % 10;
    }
  }

  lemma HexReads(value: Word)
    ensures NumberIn(ThreeHexDigits(value), 16) == value % 0x1000
    ensures forall i :: 0 <= i < 3 ==>
              ThreeHexDigits(value)[i] in Bytes("0123456789") || ThreeHexDigits(value)[i] in Bytes("ABCDEF")
  {
    var d := ThreeHexDigits(value);
    HexDigitIs(value / 0x100 % 16);
    HexDigitIs(value / 0x10 % 16);
    HexDigitIs(value % 16);
    ThreeNibbles(value);
    hide HexDigit, DigitValue, Bytes;
    assert d[..2] == [d[0], d[1]] && d[..2][..1] == [d[0]] && [d[0]][..0] == [];
    assert NumberIn([d[0]], 16) == DigitValue(d[0]);
    assert NumberIn(d[..2], 16) == DigitValue(d[0]) * 16 + DigitValue(d[1]);
  }

  lemma HexDigitIs(n: nat)
    requires n < 16
    ensures DigitValue(HexDigit(n)) == n && (HexDigit(n) in Bytes("0123456789") || HexDigit(n) in Bytes("ABCDEF"))
  {
    assert n < 10 ==> HexDigit(n) == Bytes("0123456789")[n];
    assert n >= 10 ==> HexDigit(n) == Bytes("ABCDEF")[n - 10];
  }

  // ---- BLASTER ----

  /** The text up to its first space. */
  function WordLength(text: seq<Byte>): (k: nat)
    ensures k <= |text|
  {
    if text == [] || text[0] == 0x20 then 0 else 1 + WordLength(text[1..])
  }

  /** The settings of a BLASTER value, which single spaces separate. */
  function Settings(text: seq<Byte>): (r: seq<seq<Byte>>)
    decreases |text|
  {
    var k := WordLength(text);
    if k == |text| then [text] else [text[..k]] + Settings(text[k + 1..])
  }

  /** What follows the letter in the first setting that starts with it, or nothing. */
  function After(settings: seq<seq<Byte>>, letter: char): seq<Byte> {
    if settings == [] then []
    else if settings[0] != [] && settings[0][0] == letter as int then settings[0][1..]
    else After(settings[1..], letter)
  }

  /** The card a driver finds in its BLASTER variable: A port, I IRQ, D and H channels, P MPU-401, E EMU8000, T type. */
  function ReadBlaster(text: seq<Byte>): Option<(nat, nat, nat, nat, nat, nat, nat)> {
    if |text| < 8 || text[..8] != Bytes("BLASTER=") then None
    else
      var s := Settings(text[8..]);
      Some((NumberIn(After(s, 'A'), 16), NumberIn(After(s, 'I'), 10), NumberIn(After(s, 'D'), 10),
            NumberIn(After(s, 'H'), 10), NumberIn(After(s, 'P'), 16), NumberIn(After(s, 'E'), 16),
            NumberIn(After(s, 'T'), 10)))
  }

  function Tagged(letter: char, digits: seq<Byte>): seq<Byte> {
    Bytes([letter]) + digits
  }

  function If(isThere: bool, setting: seq<Byte>): seq<seq<Byte>> {
    if isThere then [setting] else []
  }

  function CardSettings(card: Card): seq<seq<Byte>> {
    [Tagged('A', ThreeHexDigits(card.ioBase)), Tagged('I', DecimalBytes(card.irq)), Tagged('D', DecimalBytes(card.dma8))]
    + If(card.dma16 != 0, Tagged('H', DecimalBytes(card.dma16)))
    + If(card.mpuBase != 0, Tagged('P', ThreeHexDigits(card.mpuBase)))
    + If(card.emu8kBase != 0, Tagged('E', ThreeHexDigits(card.emu8kBase)))
    + [Tagged('T', DecimalBytes(card.kind))]
  }

  function JoinSpaces(words: seq<seq<Byte>>): seq<Byte> {
    if words == [] then []
    else if |words| == 1 then words[0]
    else JoinSpaces(words[..|words| - 1]) + ([0x20] + words[|words| - 1])
  }

  ghost predicate NoSpaces(words: seq<seq<Byte>>) {
    forall i :: 0 <= i < |words| ==> 0x20 !in words[i]
  }

  lemma {:induction false} WordLengthIs(word: seq<Byte>, tail: seq<Byte>)
    requires 0x20 !in word && (tail != [] ==> tail[0] == 0x20)
    ensures WordLength(word + tail) == |word|
  {
    if word == [] {
      assert word + tail == tail;
    } else {
      assert (word + tail)[1..] == word[1..] + tail;
      WordLengthIs(word[1..], tail);
    }
  }

  lemma {:induction false} SettingsAppend(text: seq<Byte>, word: seq<Byte>)
    requires 0x20 !in word
    ensures Settings(text + ([0x20] + word)) == Settings(text) + [word]
    decreases |text|
  {
    var k := WordLength(text);
    var whole := text + ([0x20] + word);
    if k == |text| {
      NoSpaceBefore(text);
      WordLengthIs(text, [0x20] + word);
      assert whole[..k] == text && whole[k + 1..] == word;
      WordLengthIs(word, []);
      assert word + [] == word;
    } else {
      NoSpaceBefore(text);
      WordLengthOf(text, [0x20] + word);
      assert whole[..k] == text[..k] && whole[k + 1..] == text[k + 1..] + ([0x20] + word);
      SettingsAppend(text[k + 1..], word);
      assert [text[..k]] + (Settings(text[k + 1..]) + [word]) == [text[..k]] + Settings(text[k + 1..]) + [word];
    }
  }

  lemma {:induction false} NoSpaceBefore(text: seq<Byte>)
    ensures 0x20 !in text[..WordLength(text)]
    ensures WordLength(text) < |text| ==> text[WordLength(text)] == 0x20
  {
    if text != [] && text[0] != 0x20 {
      NoSpaceBefore(text[1..]);
      assert text[..WordLength(text)] == [text[0]] + text[1..][..WordLength(text[1..])];
    }
  }

  lemma {:induction false} WordLengthOf(text: seq<Byte>, tail: seq<Byte>)
    requires WordLength(text) < |text|
    ensures WordLength(text + tail) == WordLength(text)
  {
    if text[0] != 0x20 {
      assert (text + tail)[1..] == text[1..] + tail;
      WordLengthOf(text[1..], tail);
    }
  }

  lemma {:induction false} SettingsOfJoined(words: seq<seq<Byte>>)
    requires words != [] && NoSpaces(words)
    ensures Settings(JoinSpaces(words)) == words
    decreases |words|
  {
    if |words| == 1 {
      WordLengthIs(words[0], []);
      assert words[0] + [] == words[0];
    } else {
      var front, last := words[..|words| - 1], words[|words| - 1];
      SettingsOfJoined(front);
      SettingsAppend(JoinSpaces(front), last);
    }
  }

  lemma DigitsHaveNoSpace(n: nat, value: Word)
    ensures 0x20 !in DecimalBytes(n) && 0x20 !in ThreeHexDigits(value)
  {
    DecimalNumeral(n);
    HexReads(value);
  }

  lemma TaggedIs(letter: char, digits: seq<Byte>)
    requires 'A' <= letter <= 'Z' && 0x20 !in digits
    ensures var t := Tagged(letter, digits);
            0x20 !in t && t != [] && t[0] == letter as int && t[1..] == digits
    ensures Bytes([' ', letter]) + digits == [0x20] + Tagged(letter, digits)
  {
  }

  lemma JoinMore(words: seq<seq<Byte>>, isThere: bool, word: seq<Byte>)
    requires words != []
    ensures JoinSpaces(words + If(isThere, word)) == JoinSpaces(words) + Optional(isThere, [0x20] + word)
  {
    if isThere {
      assert (words + [word])[..|words|] == words;
    } else {
      assert words + [] == words;
      assert JoinSpaces(words) + [] == JoinSpaces(words);
    }
  }

  lemma FrontIs(card: Card)
    ensures BlasterFront(card) == Bytes("BLASTER=")
              + JoinSpaces([Tagged('A', ThreeHexDigits(card.ioBase)), Tagged('I', DecimalBytes(card.irq)),
                            Tagged('D', DecimalBytes(card.dma8))])
  {
    DigitsHaveNoSpace(card.irq, card.ioBase);
    DigitsHaveNoSpace(card.dma8, card.ioBase);
    TaggedIs('I', DecimalBytes(card.irq));
    TaggedIs('D', DecimalBytes(card.dma8));
    Labels();
    hide DecimalBytes, ThreeHexDigits, Bytes;
    JoinThree(Tagged('A', ThreeHexDigits(card.ioBase)), Tagged('I', DecimalBytes(card.irq)),
              Tagged('D', DecimalBytes(card.dma8)));
    assert Tagged('A', ThreeHexDigits(card.ioBase)) == Bytes(['A']) + ThreeHexDigits(card.ioBase);
  }

  lemma Labels()
    ensures Bytes("BLASTER=A") == Bytes("BLASTER=") + Bytes(['A'])
    ensures " I" == [' ', 'I'] && " D" == [' ', 'D']
  {
  }

  lemma JoinThree(a: seq<Byte>, i: seq<Byte>, d: seq<Byte>)
    ensures JoinSpaces([a, i, d]) == a + ([0x20] + i) + ([0x20] + d)
  {
    assert [a, i, d][..2] == [a, i] && [a, i][..1] == [a];
    assert JoinSpaces([a, i]) == JoinSpaces([a]) + ([0x20] + i) == a + ([0x20] + i);
  }

  /** The variable is "BLASTER=" and the card's settings with single spaces between. */
  lemma BlasterIsJoined(card: Card)
    ensures BlasterText(card) == Bytes("BLASTER=") + JoinSpaces(CardSettings(card))
    ensures NoSpaces(CardSettings(card))
  {
    hide DecimalBytes, ThreeHexDigits, Bytes, BlasterFront, JoinSpaces, Tagged;
    FrontIs(card);
    DigitsHaveNoSpace(card.irq, card.ioBase);
    DigitsHaveNoSpace(card.dma8, card.mpuBase);
    DigitsHaveNoSpace(card.dma16, card.emu8kBase);
    DigitsHaveNoSpace(card.kind, card.emu8kBase);
    TaggedIs('A', ThreeHexDigits(card.ioBase));
    TaggedIs('I', DecimalBytes(card.irq));
    TaggedIs('D', DecimalBytes(card.dma8));
    TaggedIs('H', DecimalBytes(card.dma16));
    TaggedIs('P', ThreeHexDigits(card.mpuBase));
    TaggedIs('E', ThreeHexDigits(card.emu8kBase));
    TaggedIs('T', DecimalBytes(card.kind));
    assert " H" == [' ', 'H'] && " P" == [' ', 'P'] && " E" == [' ', 'E'] && " T" == [' ', 'T'];
    var w := [Tagged('A', ThreeHexDigits(card.ioBase)), Tagged('I', DecimalBytes(card.irq)),
              Tagged('D', DecimalBytes(card.dma8))];
    var h, p, e, t := Tagged('H', DecimalBytes(card.dma16)), Tagged('P', ThreeHexDigits(card.mpuBase)),
      Tagged('E', ThreeHexDigits(card.emu8kBase)), Tagged('T', DecimalBytes(card.kind));
    JoinMore(w, card.dma16 != 0, h);
    JoinMore(w + If(card.dma16 != 0, h), card.mpuBase != 0, p);
    JoinMore(w + If(card.dma16 != 0, h) + If(card.mpuBase != 0, p), card.emu8kBase != 0, e);
    JoinMore(w + If(card.dma16 != 0, h) + If(card.mpuBase != 0, p) + If(card.emu8kBase != 0, e), true, t);
    OptionalConcat(Bytes("BLASTER="), JoinSpaces(w), Optional(card.dma16 != 0, [0x20] + h),
                   Optional(card.mpuBase != 0, [0x20] + p), Optional(card.emu8kBase != 0, [0x20] + e), [0x20] + t);
  }

  lemma OptionalConcat(name: seq<Byte>, w: seq<Byte>, h: seq<Byte>, p: seq<Byte>, e: seq<Byte>, t: seq<Byte>)
    ensures name + w + h + p + e + t == name + (w + h + p + e + t)
  {
  }

  lemma AfterPassed(settings: seq<seq<Byte>>, more: seq<seq<Byte>>, letter: char)
    requires forall i :: 0 <= i < |settings| ==> settings[i] == [] || settings[i][0] != letter as int
    ensures After(settings + more, letter) == After(more, letter)
    decreases |settings|
  {
    if settings == [] {
      assert settings + more == more;
    } else {
      assert (settings + more)[1..] == settings[1..] + more;
      AfterPassed(settings[1..], more, letter);
    }
  }

  lemma AfterIf(isThere: bool, tag: char, digits: seq<Byte>, more: seq<seq<Byte>>, letter: char)
    requires 'A' <= tag <= 'Z' && 0x20 !in digits
    ensures After(If(isThere, Tagged(tag, digits)) + more, letter)
         == if isThere && tag == letter then digits else After(more, letter)
  {
    TaggedIs(tag, digits);
    if isThere {
      assert ([Tagged(tag, digits)] + more)[1..] == more;
    } else {
      assert [] + more == more;
    }
  }

  /** The settings one at a time, by letter: each there at most once, and no other in its place. */
  lemma CardSettingsAfter(card: Card, letter: char)
    ensures After(CardSettings(card), letter)
         == if letter == 'A' then ThreeHexDigits(card.ioBase)
            else if letter == 'I' then DecimalBytes(card.irq)
            else if letter == 'D' then DecimalBytes(card.dma8)
            else if letter == 'H' && card.dma16 != 0 then DecimalBytes(card.dma16)
            else if letter == 'P' && card.mpuBase != 0 then ThreeHexDigits(card.mpuBase)
            else if letter == 'E' && card.emu8kBase != 0 then ThreeHexDigits(card.emu8kBase)
            else if letter == 'T' then DecimalBytes(card.kind)
            else []
  {
    DigitsHaveNoSpace(card.irq, card.ioBase);
    DigitsHaveNoSpace(card.dma8, card.mpuBase);
    DigitsHaveNoSpace(card.dma16, card.emu8kBase);
    DigitsHaveNoSpace(card.kind, card.emu8kBase);
    hide DecimalBytes, ThreeHexDigits, Bytes, Tagged, After, If;
    var a, i, d, k := Tagged('A', ThreeHexDigits(card.ioBase)), Tagged('I', DecimalBytes(card.irq)),
      Tagged('D', DecimalBytes(card.dma8)), Tagged('T', DecimalBytes(card.kind));
    var h, p, e, t := If(card.dma16 != 0, Tagged('H', DecimalBytes(card.dma16))),
      If(card.mpuBase != 0, Tagged('P', ThreeHexDigits(card.mpuBase))),
      If(card.emu8kBase != 0, Tagged('E', ThreeHexDigits(card.emu8kBase))), If(true, k);
    NothingAfter(letter);
    Regroup(a, i, d, h, p, e, k);
    AfterIf(true, 'T', DecimalBytes(card.kind), [], letter);
    AfterIf(card.emu8kBase != 0, 'E', ThreeHexDigits(card.emu8kBase), t + [], letter);
    AfterIf(card.mpuBase != 0, 'P', ThreeHexDigits(card.mpuBase), e + (t + []), letter);
    AfterIf(card.dma16 != 0, 'H', DecimalBytes(card.dma16), p + (e + (t + [])), letter);
    AfterIf(true, 'D', DecimalBytes(card.dma8), h + (p + (e + (t + []))), letter);
    AfterIf(true, 'I', DecimalBytes(card.irq), If(true, d) + (h + (p + (e + (t + [])))), letter);
    AfterIf(true, 'A', ThreeHexDigits(card.ioBase), If(true, i) + (If(true, d) + (h + (p + (e + (t + []))))), letter);
  }

  lemma Regroup(a: seq<Byte>, i: seq<Byte>, d: seq<Byte>, h: seq<seq<Byte>>, p: seq<seq<Byte>>, e: seq<seq<Byte>>,
                k: seq<Byte>)
    ensures [a, i, d] + h + p + e + [k]
         == If(true, a) + (If(true, i) + (If(true, d) + (h + (p + (e + (If(true, k) + []))))))
  {
    assert [a, i, d] == [a] + [i] + [d];
  }

  lemma NothingAfter(letter: char)
    ensures After([], letter) == []
  {
  }

  /** A driver reads the card's own settings back, the ports in twelve bits and 0 for what is not advertised. */
  lemma BlasterReadsBack(card: Card)
    ensures ReadBlaster(BlasterText(card))
         == Some((card.ioBase % 0x1000, card.irq as nat, card.dma8 as nat, card.dma16 as nat,
                  card.mpuBase % 0x1000, card.emu8kBase % 0x1000, card.kind as nat))
  {
    hide DecimalBytes, ThreeHexDigits, CardSettings, JoinSpaces, Settings, After, NumberIn, BlasterText, Bytes, NoSpaces;
    BlasterIsJoined(card);
    assert CardSettings(card) != [] by { SettingsSome(card); }
    SettingsOfJoined(CardSettings(card));
    NumbersRead(card);
    NamePrefix(JoinSpaces(CardSettings(card)));
    CardSettingsAfter(card, 'A');
    CardSettingsAfter(card, 'I');
    CardSettingsAfter(card, 'D');
    CardSettingsAfter(card, 'H');
    CardSettingsAfter(card, 'P');
    CardSettingsAfter(card, 'E');
    CardSettingsAfter(card, 'T');
  }

  lemma SettingsSome(card: Card)
    ensures CardSettings(card) != []
  {
  }

  lemma NamePrefix(value: seq<Byte>)
    ensures var text := Bytes("BLASTER=") + value;
            |text| >= 8 && text[..8] == Bytes("BLASTER=") && text[8..] == value
  {
  }

  lemma NumbersRead(card: Card)
    ensures NumberIn(ThreeHexDigits(card.ioBase), 16) == card.ioBase % 0x1000
    ensures NumberIn(ThreeHexDigits(card.mpuBase), 16) == card.mpuBase % 0x1000
    ensures NumberIn(ThreeHexDigits(card.emu8kBase), 16) == card.emu8kBase % 0x1000
    ensures NumberIn(DecimalBytes(card.irq), 10) == card.irq && NumberIn(DecimalBytes(card.dma8), 10) == card.dma8
    ensures NumberIn(DecimalBytes(card.dma16), 10) == card.dma16 && NumberIn(DecimalBytes(card.kind), 10) == card.kind
    ensures NumberIn([], 10) == 0 && NumberIn([], 16) == 0
  {
    HexReads(card.ioBase);
    HexReads(card.mpuBase);
    HexReads(card.emu8kBase);
    DecimalReads(card.irq);
    DecimalReads(card.dma8);
    DecimalReads(card.dma16);
    DecimalReads(card.kind);
  }

  /** With no card given a driver finds port 220h, IRQ 5, channel 1, type 3 and nothing else. */
  lemma DefaultCard()
    ensures ReadBlaster(BlasterText(CardOf(None))) == Some((0x220, 5, 1, 0, 0, 0, 3))
  {
    hide ReadBlaster, BlasterText;
    BlasterReadsBack(CardOf(None));
  }

  /** The other standard variables, and what stands in for a PATH or a program path that is not given. */
  lemma StandardTextsAre(path: seq<Byte>, card: Card)
    ensures StandardTexts(path, card)[..3]
         == [Bytes("COMSPEC=C:\\COMMAND.COM"),
             Bytes("PATH=") + if path == [] then Bytes("C:\\") else path,
             Bytes("PROMPT=$p$g")]
    ensures OrDefault([], DEFAULT_PROGRAM) == Bytes("C:\\PROGRAM.COM")
  {
  }

  // ---- the knob's lines ----

  /** A line as typed, and the line ends behind it. */
  datatype Line = Line(text: seq<Byte>, ends: seq<Byte>)

  /** A line feed, a carriage return or a semicolon. */
  predicate EndsLine(c: Byte) {
    c == 0x0A || c == 0x0D || c == ';' as int
  }

  /** No line end in the text, and at least one, and nothing else, behind it. */
  predicate LineOk(line: Line) {
    && (forall i :: 0 <= i < |line.text| ==> !EndsLine(line.text[i]))
    && line.ends != [] && (forall i :: 0 <= i < |line.ends| ==> EndsLine(line.ends[i]))
  }

  function Typed(lines: seq<Line>): seq<Byte> {
    if lines == [] then [] else lines[0].text + lines[0].ends + Typed(lines[1..])
  }

  /** The lines that are not blank and do not start with '#'. */
  function Kept(lines: seq<Line>): seq<seq<Byte>> {
    if lines == [] then []
    else (if lines[0].text == [] || lines[0].text[0] == '#' as int then [] else [lines[0].text]) + Kept(lines[1..])
  }

  lemma EntriesSkip(text: seq<Byte>)
    ensures Entries(SkipLineEnds(text)) == Entries(text)
  {
    if text != [] && IsLineEnd(text[0]) {
      assert text[0..] == text && LineLength(text) == 0;
      assert [] + Entries(SkipLineEnds(text)) == Entries(SkipLineEnds(text));
    }
  }

  lemma {:induction false} SkipsEnds(ends: seq<Byte>, rest: seq<Byte>)
    requires forall i :: 0 <= i < |ends| ==> EndsLine(ends[i])
    ensures SkipLineEnds(ends + rest) == SkipLineEnds(rest)
  {
    if ends == [] {
      assert ends + rest == rest;
    } else {
      assert (ends + rest)[1..] == ends[1..] + rest;
      SkipsEnds(ends[1..], rest);
    }
  }

  lemma {:induction false} LineLengthIs(text: seq<Byte>, tail: seq<Byte>)
    requires forall i :: 0 <= i < |text| ==> !EndsLine(text[i])
    requires tail != [] ==> EndsLine(tail[0])
    ensures LineLength(text + tail) == |text|
  {
    if text == [] {
      assert text + tail == tail;
    } else {
      assert (text + tail)[1..] == text[1..] + tail;
      LineLengthIs(text[1..], tail);
    }
  }

  /** The entries of a line, and of what follows it. */
  lemma EntriesOfLine(text: seq<Byte>, ends: seq<Byte>, rest: seq<Byte>)
    requires (forall i :: 0 <= i < |text| ==> !EndsLine(text[i])) && forall i :: 0 <= i < |ends| ==> EndsLine(ends[i])
    requires ends == [] ==> rest == []
    ensures Entries(text + ends + rest)
         == (if text == [] || text[0] == '#' as int then [] else [text]) + Entries(rest)
  {
    var whole := text + ends + rest;
    LineLengthIs(text, ends + rest);
    assert whole == text + (ends + rest);
    SkipsEnds(ends, rest);
    EntriesSkip(rest);
    if whole != [] {
      assert whole[..|text|] == text && whole[|text|..] == ends + rest;
    }
  }

  /** However the lines are separated, the entries are those typed that are neither blank nor comments, in order. */
  lemma {:induction false} LinesReadBack(lines: seq<Line>, last: seq<Byte>)
    requires forall i :: 0 <= i < |lines| ==> LineOk(lines[i])
    requires forall i :: 0 <= i < |last| ==> !EndsLine(last[i])
    ensures Entries(Typed(lines) + last)
         == Kept(lines) + if last == [] || last[0] == '#' as int then [] else [last]
    decreases |lines|
  {
    hide Entries, EndsLine;
    if lines == [] {
      EntriesOfLine(last, [], []);
      NoEntriesLeft();
      assert last + [] + [] == last == Typed(lines) + last;
    } else {
      var first, rest := lines[0], Typed(lines[1..]) + last;
      LinesReadBack(lines[1..], last);
      assert LineOk(first);
      EntriesOfLine(first.text, first.ends, rest);
      assert Typed(lines) + last == first.text + first.ends + rest;
    }
  }

  lemma NoEntriesLeft()
    ensures Entries([]) == []
  {
  }

  /** Of the entries each is taken exactly when it and its NUL fit below F8h behind those taken before it. */
  lemma {:induction false} FittingOneMore(used: nat, entries: seq<seq<Byte>>, entry: seq<Byte>)
    ensures var taken := Fitting(used, entries);
            Fitting(used, entries + [entry])
            == if used + |Terminated(taken)| + |entry| + 1 <= 0xF8 then taken + [entry] else taken
    decreases |entries|
  {
    if entries == [] {
      assert entries + [entry] == [entry] && [entry][1..] == [];
      assert Terminated([]) == [];
    } else {
      assert (entries + [entry])[1..] == entries[1..] + [entry];
      if used + |entries[0]| + 1 <= VARIABLES_END {
        var next := used + |entries[0]| + 1;
        FittingOneMore(next, entries[1..], entry);
        var later := Fitting(next, entries[1..]);
        assert ([entries[0]] + later)[1..] == later;
        assert [entries[0]] + (later + [entry]) == [entries[0]] + later + [entry];
      } else {
        FittingOneMore(used, entries[1..], entry);
      }
    }
  }
}
