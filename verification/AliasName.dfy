/** One 8.3 alias: the characters DOS allows, a stem that shrinks as its number grows, and why numbers never collide. */
module AliasName {
  const BASE_LENGTH := 8
  const EXTENSION_LENGTH := 3
  const MAX_NUMBER := 999999

  function Upper(c: char): char {
    if 'a' <= c <= 'z' then (c as int - 32) as char else c
  }

  function UpperAll(s: string): (r: string)
    ensures |r| == |s| && forall i :: 0 <= i < |s| ==> r[i] == Upper(s[i])
  {
    seq(|s|, i requires 0 <= i < |s| => Upper(s[i]))
  }

  /** The two names are one to DOS: equal but for case. */
  predicate SameText(a: string, b: string) {
    UpperAll(a) == UpperAll(b)
  }

  /** Controls, space and DOS's separators. */
  predicate IsBad(c: char) {
    c <= ' ' || c in "\"*+,/:;<=>?[\\]|"
  }

  /** Upper case, ASCII, DOS-legal: '_' stands for the rest. */
  function AliasChar(c: char): char {
    if c as int >= 0x80 || IsBad(c) then '_' else Upper(c)
  }

  predicate IsDropped(c: char) {
    c == ' ' || c == '.'
  }

  /** The name without its leading dots and spaces. */
  function Trim(s: string): string {
    if s != "" && IsDropped(s[0]) then Trim(s[1..]) else s
  }

  /** The index of the last dot, or -1. */
  function LastDot(s: string): (d: int)
    ensures -1 <= d < |s|
    ensures d >= 0 ==> s[d] == '.'
  {
    if s == "" then -1 else if s[|s| - 1] == '.' then |s| - 1 else LastDot(s[..|s| - 1])
  }

  /** The first `room` alias characters of `s`, dots and spaces skipped. */
  function Squeeze(s: string, room: nat): (r: string)
    ensures |r| <= room
  {
    if s == "" || room == 0 then ""
    else if IsDropped(s[0]) then Squeeze(s[1..], room)
    else [AliasChar(s[0])] + Squeeze(s[1..], room - 1)
  }

  function BasePart(trimmed: string): string {
    if LastDot(trimmed) < 0 then trimmed else trimmed[..LastDot(trimmed)]
  }

  function ExtensionPart(trimmed: string): string {
    if LastDot(trimmed) < 0 then "" else trimmed[LastDot(trimmed) + 1..]
  }

  function StemOf(part: string): (r: string)
    ensures 1 <= |r| <= BASE_LENGTH
  {
    var base := Squeeze(part, BASE_LENGTH);
    if base == "" then "_" else base
  }

  /** What a long name contributes before the '~'; never empty. */
  function Stem(longName: string): (r: string)
    ensures 1 <= |r| <= BASE_LENGTH
  {
    StemOf(BasePart(Trim(longName)))
  }

  function Extension(longName: string): (r: string)
    ensures |r| <= EXTENSION_LENGTH
  {
    Squeeze(ExtensionPart(Trim(longName)), EXTENSION_LENGTH)
  }

  function Digit(d: nat): char
    requires d < 10
  {
    ('0' as int + d) as char
  }

  function Decimal(n: nat): (r: string)
    ensures r != ""
  {
    if n < 10 then [Digit(n)] else Decimal(n / 10) + [Digit(n % 10)]
  }

  function Clamp(number: nat): nat {
    if number > MAX_NUMBER then MAX_NUMBER else number
  }

  function Take(s: string, n: int): string {
    if n <= 0 then "" else if n >= |s| then s else s[..n]
  }

  /** The stem cut to leave room for "~digits", then that, then the extension. */
  function AliasWith(longName: string, digits: string): string {
    Take(Stem(longName), BASE_LENGTH - 1 - |digits|) + "~" + digits
      + (if Extension(longName) == "" then "" else "." + Extension(longName))
  }

  /** The alias DosAliasMake writes. */
  function AliasOf(longName: string, number: nat): string {
    AliasWith(longName, Decimal(Clamp(number)))
  }

  // ---- the generated name is a legal 8.3 name, already upper case ----

  predicate IsPlain(s: string) {
    forall i :: 0 <= i < |s| ==> s[i] != '.' && !IsBad(s[i])
  }

  /** A legal 8.3 name: one to eight plain characters, and after a dot at most three more. */
  predicate IsShortName(name: string) {
    || (1 <= |name| <= BASE_LENGTH && IsPlain(name))
    || exists k :: 1 <= k < |name| && SplitsAt(name, k)
  }

  /** The name is a base of k characters, a dot, and an extension. */
  predicate SplitsAt(name: string, k: nat)
    requires 1 <= k < |name|
  {
    && k <= BASE_LENGTH && |name| <= k + 1 + EXTENSION_LENGTH
    && name[k] == '.' && IsPlain(name[..k]) && IsPlain(name[k + 1..])
  }

  predicate LooksLikeAlias(name: string) {
    exists i :: 0 <= i < |name| - 1 && name[i] == '~' && '0' <= name[i + 1] <= '9'
  }

  /** No character changes case. */
  predicate IsUpper(s: string) {
    forall i :: 0 <= i < |s| ==> Upper(s[i]) == s[i]
  }

  lemma AliasCharPlain(c: char)
    ensures AliasChar(c) == '.' ==> c == '.'
    ensures !IsBad(AliasChar(c)) && Upper(AliasChar(c)) == AliasChar(c)
  {
  }

  lemma {:induction false} SqueezePlain(s: string, room: nat)
    ensures IsPlain(Squeeze(s, room)) && IsUpper(Squeeze(s, room))
  {
    if s == "" || room == 0 {
    } else if IsDropped(s[0]) {
      SqueezePlain(s[1..], room);
    } else {
      SqueezePlain(s[1..], room - 1);
      AliasCharPlain(s[0]);
    }
  }

  lemma StemOfPlain(part: string)
    ensures IsPlain(StemOf(part)) && IsUpper(StemOf(part))
  {
    SqueezePlain(part, BASE_LENGTH);
    AliasCharPlain('_');
    assert AliasChar('_') == '_';
  }

  lemma TakePlain(s: string, n: int)
    requires IsPlain(s) && IsUpper(s)
    ensures IsPlain(Take(s, n)) && IsUpper(Take(s, n))
  {
  }

  predicate IsNumeral(s: string) {
    forall i :: 0 <= i < |s| ==> '0' <= s[i] <= '9'
  }

  lemma {:induction false} DecimalNumeral(n: nat)
    ensures IsNumeral(Decimal(n))
  {
    if n >= 10 {
      DecimalNumeral(n / 10);
    }
  }

  /** A number below 10^k takes at most k digits. */
  lemma {:induction false} DecimalLength(n: nat, k: nat, bound: nat)
    requires 1 <= k <= 6 && bound == [1, 10, 100, 1000, 10000, 100000, 1000000][k] && n < bound
    ensures |Decimal(n)| <= k
  {
    if n >= 10 {
      DecimalLength(n / 10, k - 1, [1, 10, 100, 1000, 10000, 100000, 1000000][k - 1]);
    }
  }

  /** A number that was clamped to six digits takes at most six. */
  lemma NumberDigits(longName: string, number: nat) returns (digits: string)
    ensures digits == Decimal(Clamp(number)) && AliasOf(longName, number) == AliasWith(longName, digits)
    ensures 1 <= |digits| <= 6 && IsNumeral(digits)
  {
    digits := Decimal(Clamp(number));
    DecimalLength(Clamp(number), 6, 1000000);
    DecimalNumeral(Clamp(number));
  }

  /** The parts of an alias, with the bounds that keep it inside a 13-byte buffer. */
  lemma AliasParts(longName: string, digits: string) returns (stem: string, extension: string)
    requires 1 <= |digits| <= 6
    ensures extension == Extension(longName) && |extension| <= EXTENSION_LENGTH
    ensures stem == Take(Stem(longName), BASE_LENGTH - 1 - |digits|)
    ensures 1 <= |stem| && |stem| + 1 + |digits| <= BASE_LENGTH
    ensures AliasWith(longName, digits) == stem + "~" + digits + (if extension == "" then "" else "." + extension)
  {
    stem, extension := Take(Stem(longName), BASE_LENGTH - 1 - |digits|), Extension(longName);
    TakeLength(Stem(longName), BASE_LENGTH - 1 - |digits|);
  }

  lemma TakeLength(s: string, n: int)
    requires n >= 1 && |s| >= 1
    ensures 1 <= |Take(s, n)| <= n
  {
  }

  lemma PartsPlain(longName: string, room: int)
    ensures var stem, extension := Take(Stem(longName), room), Extension(longName);
            IsPlain(stem) && IsUpper(stem) && IsPlain(extension) && IsUpper(extension)
  {
    StemOfPlain(BasePart(Trim(longName)));
    TakePlain(Stem(longName), room);
    SqueezePlain(ExtensionPart(Trim(longName)), EXTENSION_LENGTH);
  }

  lemma BaseIsPlain(stem: string, digits: string)
    requires IsPlain(stem) && IsUpper(stem) && IsNumeral(digits)
    ensures IsPlain(stem + "~" + digits) && IsUpper(stem + "~" + digits)
  {
    var base := stem + "~" + digits;
    forall i | 0 <= i < |base|
      ensures base[i] != '.' && !IsBad(base[i]) && Upper(base[i]) == base[i]
    {
      if i < |stem| {
        assert base[i] == stem[i];
      } else if i > |stem| {
        assert base[i] == digits[i - |stem| - 1];
      }
    }
  }

  lemma DottedIsShort(base: string, extension: string)
    requires 1 <= |base| <= BASE_LENGTH && |extension| <= EXTENSION_LENGTH
    requires IsPlain(base) && IsUpper(base) && IsPlain(extension) && IsUpper(extension)
    ensures IsShortName(base + "." + extension) && IsUpper(base + "." + extension)
  {
    var name := base + "." + extension;
    assert name[..|base|] == base && name[|base| + 1..] == extension && name[|base|] == '.';
    assert SplitsAt(name, |base|);
    forall i | 0 <= i < |name|
      ensures Upper(name[i]) == name[i]
    {
      if i < |base| {
        assert name[i] == base[i];
      } else if i > |base| {
        assert name[i] == extension[i - |base| - 1];
      }
    }
  }

  lemma UpperIsFixed(s: string)
    requires IsUpper(s)
    ensures UpperAll(s) == s
  {
  }

  /** Every generated alias is a legal 8.3 name, looks like an alias, and is its own upper case. */
  lemma AliasIsShortName(longName: string, number: nat)
    ensures var alias := AliasOf(longName, number);
            IsShortName(alias) && LooksLikeAlias(alias) && UpperAll(alias) == alias && 1 <= |alias| <= 12
  {
    var digits := NumberDigits(longName, number);
    var stem, extension := AliasParts(longName, digits);
    var alias := AliasOf(longName, number);
    var base := stem + "~" + digits;
    PartsPlain(longName, BASE_LENGTH - 1 - |digits|);
    BaseIsPlain(stem, digits);
    if extension == "" {
      assert alias == base;
    } else {
      DottedIsShort(base, extension);
      assert alias == base + "." + extension;
    }
    UpperIsFixed(alias);
    assert alias[|stem|] == '~' && alias[|stem| + 1] == digits[0];
  }

  // ---- one long name, two numbers: two aliases ----

  lemma DecimalSize(n: nat)
    ensures n < 10 <==> |Decimal(n)| == 1
  {
    if n >= 10 {
      assert Decimal(n / 10) != "";
    }
  }

  lemma {:induction false} DecimalInjective(a: nat, b: nat)
    requires Decimal(a) == Decimal(b)
    ensures a == b
  {
    DecimalSize(a);
    DecimalSize(b);
    if a >= 10 && b >= 10 {
      var last := |Decimal(a)| - 1;
      assert Decimal(a)[..last] == Decimal(a / 10) && Decimal(b)[..last] == Decimal(b / 10);
      assert Decimal(a)[last] == Digit(a % 10) && Decimal(b)[last] == Digit(b % 10);
      DecimalInjective(a / 10, b / 10);
    }
  }

  /** The last '~' splits a base off its number, whatever tildes and digits the stem holds. */
  lemma LastTildeSplits(s: string, d: string, t: string, e: string)
    requires s + "~" + d == t + "~" + e && IsNumeral(d) && IsNumeral(e)
    ensures d == e
  {
    NoTildeAfter(s, d);
    NoTildeAfter(t, e);
    assert (s + "~" + d)[|s| + 1..] == d && (t + "~" + e)[|t| + 1..] == e;
  }

  lemma NoTildeAfter(s: string, d: string)
    requires IsNumeral(d)
    ensures var whole := s + "~" + d;
            whole[|s|] == '~' && forall i :: |s| < i < |whole| ==> whole[i] != '~'
  {
    var whole := s + "~" + d;
    forall i | |s| < i < |whole|
      ensures whole[i] != '~'
    {
      assert whole[i] == d[i - |s| - 1];
    }
  }

  /** For one long name the number can be read back from the alias, so no two numbers share one. */
  lemma AliasInjective(longName: string, m: nat, n: nat)
    requires m <= MAX_NUMBER && n <= MAX_NUMBER
    requires AliasOf(longName, m) == AliasOf(longName, n)
    ensures m == n
  {
    var d := NumberDigits(longName, m);
    var e := NumberDigits(longName, n);
    var s, x := AliasParts(longName, d);
    var t, y := AliasParts(longName, e);
    var tail := if x == "" then "" else "." + x;
    var alias := AliasOf(longName, m);
    var cut := |alias| - |tail|;
    assert alias[..cut] == s + "~" + d;
    assert alias[..cut] == t + "~" + e;
    LastTildeSplits(s, d, t, e);
    DecimalInjective(m, n);
  }
}
