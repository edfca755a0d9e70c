/** An MZ file written by the format's rule, field by field, and what the loader makes of it. */
module LoaderPacked {
  import opened Machine
  import opened Loader

  /** The fourteen words of the header, "MZ" first, in the order they have in the file. */
  datatype Header = Header(lastPageBytes: Word, pages: Word, relocations: Word, headerParagraphs: Word,
                           minimumAlloc: Word, maximumAlloc: Word, stackSegment: Word, stackPointer: Word,
                           checksum: Word, instructionPointer: Word, codeSegment: Word, tableOffset: Word,
                           overlay: Word)

  /** A relocation entry: the offset first, then the segment. */
  datatype Relocation = Relocation(offset: Word, segment: Word)

  function PackWord(w: Word): (r: seq<Byte>)
    ensures |r| == 2
  {
    [w % 0x100, w / 0x100]
  }

  function PackWords(ws: seq<Word>): (r: seq<Byte>)
    ensures |r| == 2 * |ws|
  {
    if ws == [] then [] else PackWord(ws[0]) + PackWords(ws[1..])
  }

  function HeaderWords(h: Header): seq<Word> {
    [0x5A4D, h.lastPageBytes, h.pages, h.relocations, h.headerParagraphs, h.minimumAlloc, h.maximumAlloc,
     h.stackSegment, h.stackPointer, h.checksum, h.instructionPointer, h.codeSegment, h.tableOffset, h.overlay]
  }

  function RelocationWords(rs: seq<Relocation>): (r: seq<Word>)
    ensures |r| == 2 * |rs|
  {
    if rs == [] then [] else [rs[0].offset, rs[0].segment] + RelocationWords(rs[1..])
  }

  /** The file starts with the header, and has the relocations where it says. */
  ghost predicate IsMzFile(file: seq<Byte>, h: Header, rs: seq<Relocation>) {
    && |file| >= 28 && file[..28] == PackWords(HeaderWords(h))
    && |rs| == h.relocations && h.tableOffset + 4 * |rs| <= |file|
    && file[h.tableOffset..h.tableOffset + 4 * |rs|] == PackWords(RelocationWords(rs))
  }

  lemma {:induction false} PackedWordAt(ws: seq<Word>, i: nat)
    requires i < |ws|
    ensures WordIn(PackWords(ws), 2 * i) == ws[i]
  {
    if i > 0 {
      PackedWordAt(ws[1..], i - 1);
      assert PackWords(ws)[2 * i] == PackWords(ws[1..])[2 * i - 2];
      assert PackWords(ws)[2 * i + 1] == PackWords(ws[1..])[2 * i - 1];
    }
  }

  lemma WordOfFile(file: seq<Byte>, at: nat, ws: seq<Word>, i: nat)
    requires i < |ws| && at + 2 * |ws| <= |file| && file[at..at + 2 * |ws|] == PackWords(ws)
    ensures WordIn(file, at + 2 * i) == ws[i]
  {
    PackedWordAt(ws, i);
    assert file[at + 2 * i] == PackWords(ws)[2 * i] && file[at + 2 * i + 1] == PackWords(ws)[2 * i + 1];
  }

  /** Every field of the header reads back, and the file is an MZ file with its table. */
  lemma HeaderReadsBack(file: seq<Byte>, h: Header, rs: seq<Relocation>)
    requires IsMzFile(file, h, rs)
    ensures IsMz(file) && TableRead(file) && HeaderSize(file) == 16 * h.headerParagraphs
    ensures WordIn(file, 2) == h.lastPageBytes && WordIn(file, 4) == h.pages && WordIn(file, 6) == h.relocations
    ensures WordIn(file, 8) == h.headerParagraphs && WordIn(file, 10) == h.minimumAlloc
    ensures WordIn(file, 12) == h.maximumAlloc && WordIn(file, 14) == h.stackSegment
    ensures WordIn(file, 16) == h.stackPointer && WordIn(file, 20) == h.instructionPointer
    ensures WordIn(file, 22) == h.codeSegment && WordIn(file, 24) == h.tableOffset
  {
    hide WordIn, PackWords;
    var ws := HeaderWords(h);
    assert file[0..28] == file[..28];
    WordOfFile(file, 0, ws, 0);
    WordOfFile(file, 0, ws, 1);
    WordOfFile(file, 0, ws, 2);
    WordOfFile(file, 0, ws, 3);
    WordOfFile(file, 0, ws, 4);
    WordOfFile(file, 0, ws, 5);
    WordOfFile(file, 0, ws, 6);
    WordOfFile(file, 0, ws, 7);
    WordOfFile(file, 0, ws, 8);
    WordOfFile(file, 0, ws, 10);
    WordOfFile(file, 0, ws, 11);
    WordOfFile(file, 0, ws, 12);
    MzIs(file);
  }

  lemma MzIs(file: seq<Byte>)
    requires |file| >= 28 && WordIn(file, 0) == 0x5A4D
    ensures IsMz(file)
  {
  }

  lemma {:induction false} FixupsReadBack(file: seq<Byte>, at: nat, rs: seq<Relocation>)
    requires at + 4 * |rs| <= |file| && file[at..at + 4 * |rs|] == PackWords(RelocationWords(rs))
    ensures forall i :: 0 <= i < |rs| ==> FixupsAt(file, at, |rs|)[i] == 16 * rs[i].segment + rs[i].offset
    decreases |rs|
  {
    hide WordIn;
    if rs != [] {
      var ws, rest := RelocationWords(rs), RelocationWords(rs[1..]);
      assert |ws| == 2 * |rs|;
      WordOfFile(file, at, ws, 0);
      WordOfFile(file, at, ws, 1);
      PackFront(ws, rest);
      assert file[at + 4..at + 4 + 4 * |rs[1..]|] == file[at..at + 4 * |rs|][4..];
      FixupsReadBack(file, at + 4, rs[1..]);
    }
  }

  lemma PackFront(ws: seq<Word>, rest: seq<Word>)
    requires |ws| >= 2 && ws[2..] == rest
    ensures PackWords(ws)[4..] == PackWords(rest)
  {
    assert ws[1..][1..] == rest;
    assert PackWords(ws) == PackWord(ws[0]) + (PackWord(ws[1]) + PackWords(rest));
  }

  /** The fixups are the entries' words, in order, each at 16 times its segment plus its offset into the image. */
  lemma FixupsAreEntries(file: seq<Byte>, h: Header, rs: seq<Relocation>)
    requires IsMzFile(file, h, rs)
    ensures IsMz(file) && TableRead(file) && |Fixups(file)| == |rs|
    ensures forall i :: 0 <= i < |rs| ==> Fixups(file)[i] == 16 * rs[i].segment + rs[i].offset
  {
    HeaderReadsBack(file, h, rs);
    hide WordIn, PackWords, HeaderWords, FixupsAt;
    FixupsReadBack(file, h.tableOffset, rs);
  }

  /**
   * A file of `total` bytes with the page counts a linker writes, whole pages and the bytes in the last one with 0
   * for a full one, and however much more behind them: the load module is all of the bytes behind the header.
   */
  lemma LinkedModuleIsWhole(file: seq<Byte>, h: Header, rs: seq<Relocation>, total: nat)
    requires IsMzFile(file, h, rs) && 0 < total <= |file| && 16 * h.headerParagraphs <= total
    requires h.pages == (total + 511) / 512 && h.lastPageBytes == total % 512
    ensures IsMz(file) && LoadModule(file) == file[16 * h.headerParagraphs..total]
    ensures 32 * h.pages - h.headerParagraphs < 0x1_0000 ==> WellFormed(file)
  {
    LinkerCounts(total);
    HeaderReadsBack(file, h, rs);
    CountedModule(file, h.headerParagraphs, h.pages, h.lastPageBytes, total);
  }

  lemma CountedModule(file: seq<Byte>, header: Word, pages: Word, last: Word, total: nat)
    requires IsMz(file) && WordIn(file, 8) == header && WordIn(file, 4) == pages && WordIn(file, 2) == last
    requires 0 < total <= |file| && 16 * header <= total
    requires pages > 0 && last <= 512 && (pages - 1) * 512 + (if last == 0 then 512 else last) == total
    ensures LoadModule(file) == file[16 * header..total]
    ensures 32 * pages - header < 0x1_0000 ==> WellFormed(file)
  {
    hide WordIn;
    assert TotalUsed(file) == total;
    if total == 16 * header {
      assert file[16 * header..total] == [];
    }
  }

  lemma LinkerCounts(total: nat)
    requires total > 0
    ensures var pages, last := (total + 511) / 512, total % 512;
            pages > 0 && (pages - 1) * 512 + (if last == 0 then 512 else last) == total
  {
    if total % 512 == 0 {
      assert (total + 511) / 512 == total / 512;
    } else {
      assert (total + 511) / 512 == total / 512 + 1;
    }
  }

  /**
   * How much memory EXEC gives: without the PSP, the image's whole pages and the minimum, error 8. Else, when the
   * header asks for no memory at all, the largest block and a load at its top; and otherwise what it would like, the
   * maximum or the minimum if that is more, as far as the largest block goes. What is no MZ file gets that block.
   */
  lemma ExecSizeIs(file: seq<Byte>, h: Header, rs: seq<Relocation>, largest: Word)
    requires IsMzFile(file, h, rs) && 0 <= 32 * h.pages - h.headerParagraphs < 0x1_0000
    ensures var image := 32 * h.pages - h.headerParagraphs;
            var size := DosExecSize(file, largest);
            && (size.Refused? <==> 0x10 + image + h.minimumAlloc > largest)
            && (size.Given? ==>
                  && (size.loadHigh <==> h.minimumAlloc == 0 && h.maximumAlloc == 0)
                  && size.allocation == if size.loadHigh then largest
                                        else Min(largest, 0x10 + image + Max(h.minimumAlloc, h.maximumAlloc)))
  {
    HeaderReadsBack(file, h, rs);
    ParagraphsAre(file, h.pages, h.headerParagraphs);
    SizeOf(file, 32 * h.pages - h.headerParagraphs, h.minimumAlloc, h.maximumAlloc, largest);
  }

  lemma SizeOf(file: seq<Byte>, image: Word, minimum: Word, maximum: Word, largest: Word)
    requires IsMz(file) && DosImageParagraphs(file) == image
    requires WordIn(file, 10) == minimum && WordIn(file, 12) == maximum
    ensures var size := DosExecSize(file, largest);
            && (size.Refused? <==> 0x10 + image + minimum > largest)
            && (size.Given? ==>
                  && (size.loadHigh <==> minimum == 0 && maximum == 0)
                  && size.allocation == if size.loadHigh then largest
                                        else Min(largest, 0x10 + image + Max(minimum, maximum)))
  {
    hide WordIn, DosImageParagraphs;
    SmallWord(largest);
    if 0x10 + image + Max(minimum, maximum) < largest {
      SmallWord(0x10 + image + Max(minimum, maximum));
    }
  }

  lemma ParagraphsAre(file: seq<Byte>, pages: Word, header: Word)
    requires IsMz(file) && WordIn(file, 4) == pages && WordIn(file, 8) == header
    requires 0 <= 32 * pages - header < 0x1_0000
    ensures DosImageParagraphs(file) == 32 * pages - header
  {
    hide WordIn;
    SmallWord(32 * pages - header);
  }

  lemma SmallWord(n: nat)
    requires n < 0x1_0000
    ensures n % 0x1_0000 == n
  {
  }

  /** Anything shorter than a header or not signed "MZ" is a .COM: the largest block, never at its top. */
  lemma ComTakesLargest(file: seq<Byte>, largest: Word)
    requires |file| < 28 || file[0] != 'M' as int || file[1] != 'Z' as int
    ensures DosExecSize(file, largest) == Given(largest, false) && DosImageParagraphs(file) == 0
  {
  }
}
