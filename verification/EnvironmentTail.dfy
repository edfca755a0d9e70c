/** The count word and the program path behind the variables: exactly when a program can still find them. */
module EnvironmentTail {
  import opened Machine
  import opened Environment

  /** The longest PATH in front of which nothing is clipped and behind which BLASTER still has room to start. */
  const LONGEST_PATH: nat := 206

  function PathText(path: seq<Byte>): seq<Byte> {
    Bytes(PATH_PREFIX) + OrDefault(path, DEFAULT_PATH)
  }

  /** The variables in front of BLASTER. */
  function Front(path: seq<Byte>): seq<Byte> {
    Variable(Variable(Variable([], Bytes(COMSPEC)), PathText(path)), Bytes(PROMPT))
  }

  /** As much of a text as there is room for below the reserve. */
  function Clip(text: seq<Byte>, used: nat): seq<Byte> {
    text[..Min(|text|, Max(0, VARIABLES_END - used))]
  }

  lemma VariableIs(out: seq<Byte>, text: seq<Byte>)
    ensures Variable(out, text) == out + (Clip(text, |out|) + [0])
  {
  }

  lemma ThreeTerminated(a: seq<Byte>, b: seq<Byte>, c: seq<Byte>)
    ensures Terminated([a, b, c]) == a + [0] + (b + [0]) + (c + [0])
    ensures Terminated([a, b]) == a + [0] + (b + [0])
  {
    assert [a, b, c][1..] == [b, c] && [b, c][1..] == [c] && [a, b][1..] == [b] && [b][1..] == [] && [c][1..] == [];
    assert Terminated([c]) == c + [0] + [];
    assert Terminated([b]) == b + [0] + [];
    assert Terminated([b, c]) == b + [0] + (c + [0]);
  }

  /** What is in front of BLASTER: COMSPEC whole, and the PATH and the prompt clipped at the reserve. */
  lemma FrontIs(path: seq<Byte>)
    ensures var pathText := Clip(PathText(path), |COMSPEC| + 1);
            var prompt := Clip(Bytes(PROMPT), |COMSPEC| + 1 + |pathText| + 1);
            && Front(path) == Bytes(COMSPEC) + [0] + (pathText + [0]) + (prompt + [0])
            && pathText != [] && |Front(path)| == |COMSPEC| + |pathText| + |prompt| + 3
            && (|path| <= LONGEST_PATH <==> |Front(path)| < VARIABLES_END)
            && (|path| <= LONGEST_PATH ==> pathText == PathText(path) && prompt == Bytes(PROMPT))
  {
    hide Variable;
    var first := Bytes(COMSPEC) + [0];
    VariableIs([], Bytes(COMSPEC));
    assert Variable([], Bytes(COMSPEC)) == first;
    VariableIs(first, PathText(path));
    var pathText := Clip(PathText(path), |first|);
    VariableIs(first + (pathText + [0]), Bytes(PROMPT));
  }

  /** With a PATH too long, the variables end early: after the PATH or after a prompt, whole or clipped. */
  lemma FrontBroken(path: seq<Byte>) returns (texts: seq<seq<Byte>>)
    requires IsText(path) && |path| > LONGEST_PATH
    ensures AllTexts(texts)
    ensures Front(path) == Terminated(texts) || Front(path) == Terminated(texts) + [0]
  {
    hide Terminated, Front;
    NamesAreTexts();
    FrontIs(path);
    var pathText := Clip(PathText(path), |COMSPEC| + 1);
    var prompt := Clip(Bytes(PROMPT), |COMSPEC| + 1 + |pathText| + 1);
    ThreeTerminated(Bytes(COMSPEC), pathText, prompt);
    texts := if prompt == [] then [Bytes(COMSPEC), pathText] else [Bytes(COMSPEC), pathText, prompt];
    assert prompt == [] ==> prompt + [0] == [0];
  }

  lemma {:induction false} NothingFits(used: nat, entries: seq<seq<Byte>>)
    requires used >= VARIABLES_END
    ensures Fitting(used, entries) == []
    decreases |entries|
  {
    if entries != [] {
      NothingFits(used, entries[1..]);
    }
  }

  lemma CountReads(texts: seq<seq<Byte>>, rest: seq<Byte>)
    requires AllTexts(texts) && |rest| >= 2
    ensures Parse(Terminated(texts) + [0] + rest).count == WordOf(rest[0], rest[1])
  {
    hide Terminated, AllTexts;
    TextsRead(texts, rest);
  }

  /** The block when BLASTER has no room at all: its NUL alone, no entry, and the tail. */
  lemma BrokenBlockIs(program: seq<Byte>, path: seq<Byte>, card: Card, extra: seq<Byte>) returns (name: seq<Byte>)
    requires |path| > LONGEST_PATH
    ensures Block(program, path, card, extra) == Front(path) + [0] + ([0, 1, 0] + name + [0])
  {
    hide BlasterText, Entries, Front, Standard, Variable, Fitting, Bytes, OrDefault;
    FrontIs(path);
    var variables := Front(path) + [0];
    assert Standard(path, card) == variables by {
      VariableIs(Front(path), BlasterText(card));
      StandardIs(path, card);
    }
    NothingFits(|variables|, Entries(extra));
    var whole := OrDefault(program, DEFAULT_PROGRAM);
    name := whole[..Min(|whole|, Max(0, CAP - 1 - |variables + [0, 1, 0]|))];
    assert variables + [] + [0, 1, 0] == variables + [0, 1, 0];
  }

  lemma StandardIs(path: seq<Byte>, card: Card)
    ensures Standard(path, card) == Variable(Front(path), BlasterText(card))
  {
  }

  /** The count is 1 and the program path is there, as far as the variables leave room for it. */
  predicate TailFound(parsed: Parsed, program: seq<Byte>) {
    && parsed.count == 1 && |Terminated(parsed.variables)| + 3 < CAP
    && var name := OrDefault(program, DEFAULT_PROGRAM);
       parsed.program == name[..Min(|name|, CAP - 4 - |Terminated(parsed.variables)|)]
  }

  /**
   * The tail is found exactly when the PATH is at most 206 bytes, whatever the program, the card and the
   * extra text are. With a longer one, BLASTER or the prompt is an empty text, at which a program stops
   * reading variables, and what it takes for the count is 0 or 256.
   */
  lemma TailReadsBackIff(program: seq<Byte>, path: seq<Byte>, card: Card, extra: seq<Byte>)
    requires IsText(program) && IsText(path) && IsText(extra)
    ensures TailFound(Parse(Block(program, path, card, extra)), program) <==> |path| <= LONGEST_PATH
    ensures |path| > LONGEST_PATH ==> Parse(Block(program, path, card, extra)).count in {0, 0x100}
  {
    hide Block, Parse, Terminated, Front, Bytes, OrDefault, PathText, AllTexts, IsText, BlasterText, Standard,
        Fitting, Entries;
    if |path| <= LONGEST_PATH {
      ShortPathReads(program, path, card, extra);
    } else {
      LongPathMisreads(program, path, card, extra);
    }
  }

  /** What of the variables is in front of the tail, when BLASTER has room to start. */
  function ShortTexts(path: seq<Byte>, card: Card, extra: seq<Byte>): seq<seq<Byte>> {
    [Bytes(COMSPEC), PathText(path), Bytes(PROMPT), Clip(BlasterText(card), |Front(path)|)]
    + Fitting(|Standard(path, card)|, Entries(extra))
  }

  /**
   * The tail is found with the program path whole exactly when the PATH is at most 206 bytes and the path fits
   * between the variables and the end of the block.
   */
  lemma ProgramReadsWholeIff(program: seq<Byte>, path: seq<Byte>, card: Card, extra: seq<Byte>)
    requires IsText(program) && IsText(path) && IsText(extra)
    ensures var parsed, name := Parse(Block(program, path, card, extra)), OrDefault(program, DEFAULT_PROGRAM);
            parsed.count == 1 && parsed.program == name
            <==> |path| <= LONGEST_PATH && |Terminated(ShortTexts(path, card, extra))| + 4 + |name| <= CAP
  {
    hide Block, Parse, Terminated, Front, Bytes, OrDefault, PathText, IsText, BlasterText, Standard, Fitting, Entries;
    if |path| <= LONGEST_PATH {
      ShortPathReads(program, path, card, extra);
    } else {
      LongPathMisreads(program, path, card, extra);
    }
  }

  lemma LongPathMisreads(program: seq<Byte>, path: seq<Byte>, card: Card, extra: seq<Byte>)
    requires IsText(path) && |path| > LONGEST_PATH
    ensures Parse(Block(program, path, card, extra)).count in {0, 0x100}
  {
    hide Block, Parse, Terminated, Front, PathText, AllTexts, IsText;
    var texts := FrontBroken(path);
    var name := BrokenBlockIs(program, path, card, extra);
    var tail := [0, 1, 0] + name + [0];
    if Front(path) == Terminated(texts) {
      CountReads(texts, tail);
    } else {
      assert Front(path) + [0] + tail == Terminated(texts) + [0] + ([0] + tail);
      CountReads(texts, [0] + tail);
    }
  }

  /** With such a PATH the round trip is whole but for the end of BLASTER. */
  lemma ShortPathReads(program: seq<Byte>, path: seq<Byte>, card: Card, extra: seq<Byte>)
    requires IsText(program) && IsText(path) && IsText(extra) && |path| <= LONGEST_PATH
    ensures var name := OrDefault(program, DEFAULT_PROGRAM);
            var texts := ShortTexts(path, card, extra);
            && |Terminated(texts)| + 3 < CAP
            && Parse(Block(program, path, card, extra))
                 == Parsed(texts, 1, name[..Min(|name|, CAP - 4 - |Terminated(texts)|)])
  {
    hide Entries, Bytes, Standard, BlasterText, AllTexts, IsText, Terminated, Fitting, Put, Parse, OrDefault, Front,
        PathText, Clip;
    var blaster := Clip(BlasterText(card), |Front(path)|);
    var standard := [Bytes(COMSPEC), PathText(path), Bytes(PROMPT), blaster];
    var fitting := Fitting(|Standard(path, card)|, Entries(extra));
    BlockFits(program, path, card, extra);
    ShortStandard(path, card);
    EntriesTexts(extra);
    FittingTexts(|Standard(path, card)|, Entries(extra));
    FittingFits(|Standard(path, card)|, Entries(extra));
    TextsConcat(standard, fitting);
    TerminatedConcat(standard, fitting);
    ProgramIsText(program);
    TailReads(standard + fitting, OrDefault(program, DEFAULT_PROGRAM), Block(program, path, card, extra));
  }

  lemma ShortStandard(path: seq<Byte>, card: Card)
    requires IsText(path) && |path| <= LONGEST_PATH
    ensures var texts := [Bytes(COMSPEC), PathText(path), Bytes(PROMPT), Clip(BlasterText(card), |Front(path)|)];
            && AllTexts(texts) && Standard(path, card) == Terminated(texts)
            && |Standard(path, card)| <= VARIABLES_END + 1
  {
    hide Terminated, BlasterText, Standard, Front;
    var blaster := Clip(BlasterText(card), |Front(path)|);
    NamesAreTexts();
    FrontIs(path);
    BlasterStarts(card);
    BlasterIsText(card);
    StandardIs(path, card);
    VariableIs(Front(path), BlasterText(card));
    FourTerminated(Bytes(COMSPEC), PathText(path), Bytes(PROMPT), blaster);
  }

  lemma BlasterStarts(card: Card)
    ensures BlasterText(card) != []
  {
  }
}
