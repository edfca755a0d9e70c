/**
 * Which letters an alias has. Five rules rewrite any long name to a plain one, base or base and extension, without
 * changing its alias, and of a plain name the alias is spelled out; none of them mentions how aliases are made.
 */
module AliasLetters {
  import opened AliasName

  /** ASCII but for controls, space, dot and DOS's separators; the code takes 7Fh for none of these. */
  predicate IsLegal(c: char) {
    ' ' as int < c as int <= 0x7F && c !in "\"*+,./:;<=>?[\\]|"
  }

  predicate AllLegal(s: string) {
    forall i :: 0 <= i < |s| ==> IsLegal(s[i])
  }

  function Capital(c: char): char {
    if 'a' <= c <= 'z' then (c as int - 'a' as int + 'A' as int) as char else c
  }

  /** The first `count` characters of s in capitals. */
  function Capitals(s: string, count: nat): (r: string)
    ensures |r| == if count < |s| then count else |s|
    ensures forall i :: 0 <= i < |r| ==> r[i] == Capital(s[i])
  {
    seq(if count < |s| then count else |s|, i requires 0 <= i < |s| => Capital(s[i]))
  }

  function ValueOf(digits: string): nat
    requires IsNumeral(digits)
  {
    if digits == "" then 0
    else 10 * ValueOf(digits[..|digits| - 1]) + (digits[|digits| - 1] as int - '0' as int)
  }

  /** The usual decimal numeral, without leading zeros. */
  predicate Spells(digits: string, n: nat) {
    && 1 <= |digits| && IsNumeral(digits) && ValueOf(digits) == n
    && (|digits| > 1 ==> digits[0] != '0')
  }

  lemma {:induction false} DecimalSpells(n: nat)
    ensures Spells(Decimal(n), n)
  {
    DecimalNumeral(n);
    if n >= 10 {
      DecimalSpells(n / 10);
      assert Decimal(n)[..|Decimal(n)| - 1] == Decimal(n / 10);
      assert n / 10 > 0;
      if |Decimal(n / 10)| == 1 {
        assert Decimal(n / 10)[..0] == "";
      }
    } else {
      assert Decimal(n)[..0] == "";
    }
  }

  // ---- a plain name ----

  lemma {:induction false} SqueezeLegal(s: string, room: nat)
    requires AllLegal(s)
    ensures Squeeze(s, room) == Capitals(s, room)
  {
    if s != "" && room > 0 {
      SqueezeLegal(s[1..], room - 1);
    }
  }

  lemma {:induction false} LastDotOfPlain(s: string)
    requires forall i :: 0 <= i < |s| ==> s[i] != '.'
    ensures LastDot(s) == -1
  {
    if s != "" {
      LastDotOfPlain(s[..|s| - 1]);
    }
  }

  lemma {:induction false} LastDotAppend(a: string, b: string)
    ensures LastDot(a + b) == if LastDot(b) >= 0 then |a| + LastDot(b) else LastDot(a)
  {
    if b == "" {
      assert a + b == a;
    } else {
      var front := b[..|b| - 1];
      assert (a + b)[..|a + b| - 1] == a + front;
      LastDotAppend(a, front);
    }
  }

  /**
   * Of a name of legal characters, with or without an extension, the alias is the first characters of its base in
   * capitals, as many as leave room for "~" and the number in eight, then those, then three of the extension.
   */
  lemma PlainNameAlias(a: string, b: string, number: nat) returns (digits: string)
    requires a != "" && AllLegal(a) && AllLegal(b)
    ensures Spells(digits, if number > 999999 then 999999 else number) && |digits| <= 6
    ensures AliasOf(a + "." + b, number)
         == Capitals(a, 7 - |digits|) + "~" + digits + (if b == "" then "" else "." + Capitals(b, 3))
    ensures AliasOf(a, number) == Capitals(a, 7 - |digits|) + "~" + digits
  {
    hide Stem, Extension, IsLegal, AllLegal, Decimal, Spells;
    digits := NumberDigits(a, number);
    DecimalSpells(Clamp(number));
    PlainParts(a, b);
    assert Take(Capitals(a, BASE_LENGTH), 7 - |digits|) == Capitals(a, 7 - |digits|);
    assert AliasOf(a, number) == Capitals(a, 7 - |digits|) + "~" + digits + "";
  }

  lemma PlainParts(a: string, b: string)
    requires a != "" && AllLegal(a) && AllLegal(b)
    ensures Stem(a + "." + b) == Capitals(a, BASE_LENGTH) && Extension(a + "." + b) == Capitals(b, EXTENSION_LENGTH)
    ensures Stem(a) == Capitals(a, BASE_LENGTH) && Extension(a) == ""
  {
    hide Squeeze, LastDot;
    SqueezeLegal(a, BASE_LENGTH);
    SqueezeLegal(b, EXTENSION_LENGTH);
    LastDotOfPlain(a);
    LastDotOfPlain(b);
    var name := a + "." + b;
    LastDotAppend(a + ".", b);
    DotLast(a);
    assert IsLegal(a[0]) && name[0] == a[0];
    PartsAt(name, name, |a|);
    assert name[..|a|] == a && name[|a| + 1..] == b;
    PartsAt(a, a, -1);
    NothingSqueezed();
  }

  lemma DotLast(a: string)
    ensures LastDot(a + ".") == |a|
  {
  }

  lemma NothingSqueezed()
    ensures Squeeze("", EXTENSION_LENGTH) == ""
  {
  }

  /** The two parts of a name by where its last dot is. */
  lemma PartsAt(s: string, t: string, d: int)
    requires Trim(s) == t && LastDot(t) == d
    ensures Stem(s) == StemOf(if d < 0 then t else t[..d])
    ensures Extension(s) == Squeeze(if d < 0 then "" else t[d + 1..], EXTENSION_LENGTH)
  {
  }

  lemma PartsOf(s: string, t: string)
    requires Trim(s) == t
    ensures Stem(s) == StemOf(BasePart(t)) && Extension(s) == Squeeze(ExtensionPart(t), EXTENSION_LENGTH)
  {
  }

  /** A name with nothing in it at all has the substitute for a base. */
  lemma EmptyNameAlias(number: nat) returns (digits: string)
    ensures Spells(digits, if number > 999999 then 999999 else number)
    ensures AliasOf("", number) == "_~" + digits
  {
    digits := NumberDigits("", number);
    DecimalSpells(Clamp(number));
    assert Stem("") == "_" && Extension("") == "";
    assert AliasOf("", number) == "_" + "~" + digits + "";
  }

  // ---- names with the same alias ----

  lemma SameParts(one: string, two: string, number: nat)
    requires Stem(one) == Stem(two) && Extension(one) == Extension(two)
    ensures AliasOf(one, number) == AliasOf(two, number)
  {
  }

  /** Leading dots and spaces: those of a, and then, when a is nothing else, those of what follows. */
  lemma {:induction false} TrimAppend(a: string, b: string)
    ensures Trim(a + b) == if Trim(a) == "" then Trim(b) else Trim(a) + b
  {
    if a == "" {
      assert a + b == b;
    } else {
      assert (a + b)[1..] == a[1..] + b;
      if IsDropped(a[0]) {
        TrimAppend(a[1..], b);
      }
    }
  }

  lemma {:induction false} SqueezeDrops(a: string, c: char, b: string, room: nat)
    requires IsDropped(c)
    ensures Squeeze(a + [c] + b, room) == Squeeze(a + b, room)
  {
    if a == "" {
      assert a + [c] + b == [c] + b && a + b == b;
      assert ([c] + b)[1..] == b;
    } else {
      assert (a + [c] + b)[1..] == a[1..] + [c] + b && (a + b)[1..] == a[1..] + b;
      SqueezeDrops(a[1..], c, b, room);
      if room > 0 {
        SqueezeDrops(a[1..], c, b, room - 1);
      }
    }
  }

  /** A space anywhere, or a dot before another, is not in the base and not in the extension. */
  lemma DropsOut(a: string, c: char, b: string)
    requires c == ' ' || (c == '.' && LastDot(b) >= 0)
    ensures Stem(a + [c] + b) == Stem(a + b) && Extension(a + [c] + b) == Extension(a + b)
  {
    hide Squeeze, StemOf, LastDot, Stem, Extension, BasePart, ExtensionPart;
    assert a + [c] + b == a + ([c] + b);
    TrimAppend(a, [c] + b);
    TrimAppend(a, b);
    assert ([c] + b)[1..] == b;
    if Trim(a) == "" {
      PartsOf(a + [c] + b, Trim(b));
      PartsOf(a + b, Trim(b));
    } else {
      var t := Trim(a);
      assert t + ([c] + b) == t + [c] + b;
      PartsOf(a + [c] + b, t + [c] + b);
      PartsOf(a + b, t + b);
      DropsInside(t, c, b);
    }
  }

  lemma CutBehind(t: string, b: string, d: int)
    requires 0 <= d < |b|
    ensures (t + b)[..|t| + d] == t + b[..d] && (t + b)[|t| + d + 1..] == b[d + 1..]
  {
  }

  lemma CutBefore(t: string, b: string, e: int)
    requires 0 <= e < |t|
    ensures (t + b)[..e] == t[..e] && (t + b)[e + 1..] == t[e + 1..] + b
  {
  }

  /** Where the parts of two texts put together come from: the second's last dot, or else the first's. */
  lemma PartsOfJoined(t: string, b: string)
    ensures BasePart(t + b) == if LastDot(b) >= 0 then t + b[..LastDot(b)]
                               else if LastDot(t) >= 0 then t[..LastDot(t)] else t + b
    ensures ExtensionPart(t + b) == if LastDot(b) >= 0 then b[LastDot(b) + 1..]
                                    else if LastDot(t) >= 0 then t[LastDot(t) + 1..] + b else ""
  {
    hide LastDot;
    LastDotAppend(t, b);
    if LastDot(b) >= 0 {
      CutBehind(t, b, LastDot(b));
    } else if LastDot(t) >= 0 {
      CutBefore(t, b, LastDot(t));
    }
  }

  /** With one character between them that is no dot, or in front of a later one. */
  lemma PartsAround(t: string, c: char, b: string)
    requires c != '.' || LastDot(b) >= 0
    ensures BasePart(t + [c] + b) == if LastDot(b) >= 0 then t + [c] + b[..LastDot(b)]
                                     else if LastDot(t) >= 0 then t[..LastDot(t)] else t + [c] + b
    ensures ExtensionPart(t + [c] + b) == if LastDot(b) >= 0 then b[LastDot(b) + 1..]
                                          else if LastDot(t) >= 0 then t[LastDot(t) + 1..] + [c] + b else ""
  {
    LastDotOne(c);
    hide LastDot, BasePart, ExtensionPart;
    PartsOfJoined(t + [c], b);
    LastDotAppend(t, [c]);
    if LastDot(b) < 0 && LastDot(t) >= 0 {
      CutBefore(t, [c], LastDot(t));
    }
  }

  lemma DropsInside(t: string, c: char, b: string)
    requires c == ' ' || (c == '.' && LastDot(b) >= 0)
    ensures StemOf(BasePart(t + [c] + b)) == StemOf(BasePart(t + b))
    ensures Squeeze(ExtensionPart(t + [c] + b), EXTENSION_LENGTH) == Squeeze(ExtensionPart(t + b), EXTENSION_LENGTH)
  {
    hide Squeeze, StemOf, LastDot, BasePart, ExtensionPart;
    PartsOfJoined(t, b);
    PartsAround(t, c, b);
    if LastDot(b) >= 0 {
      SqueezesAlike(t, c, b[..LastDot(b)]);
    } else if LastDot(t) >= 0 {
      SqueezeDrops(t[LastDot(t) + 1..], c, b, EXTENSION_LENGTH);
    } else {
      SqueezesAlike(t, c, b);
    }
  }

  lemma LastDotOne(c: char)
    ensures LastDot([c]) == if c == '.' then 0 else -1
  {
    assert [c][..0] == "";
  }

  lemma SqueezesAlike(t: string, c: char, b: string)
    requires IsDropped(c)
    ensures StemOf(t + [c] + b) == StemOf(t + b)
  {
    SqueezeDrops(t, c, b, BASE_LENGTH);
  }

  /** A space anywhere in a name changes nothing. */
  lemma SpaceChangesNothing(a: string, b: string, number: nat)
    ensures AliasOf(a + " " + b, number) == AliasOf(a + b, number)
  {
    DropsOut(a, ' ', b);
    SameParts(a + " " + b, a + b, number);
  }

  /** Nor does a dot in front of a name. */
  lemma LeadingDotChangesNothing(s: string, number: nat)
    ensures AliasOf("." + s, number) == AliasOf(s, number)
  {
    assert ("." + s)[1..] == s;
    SameParts("." + s, s, number);
  }

  /** Nor does any dot with another one behind it. */
  lemma EarlierDotChangesNothing(a: string, b: string, number: nat)
    requires '.' in b
    ensures AliasOf(a + "." + b, number) == AliasOf(a + b, number)
  {
    DotIsFound(b);
    DropsOut(a, '.', b);
    SameParts(a + "." + b, a + b, number);
  }

  lemma {:induction false} DotIsFound(s: string)
    requires '.' in s
    ensures LastDot(s) >= 0
  {
    if s[|s| - 1] != '.' {
      DotIsFound(s[..|s| - 1]);
    }
  }

  lemma {:induction false} SqueezeSubstitutes(a: string, c: char, d: char, b: string, room: nat)
    requires !IsDropped(c) && !IsDropped(d) && AliasChar(c) == AliasChar(d)
    ensures Squeeze(a + [c] + b, room) == Squeeze(a + [d] + b, room)
  {
    if a == "" {
      assert a + [c] + b == [c] + b && a + [d] + b == [d] + b;
      assert ([c] + b)[1..] == b == ([d] + b)[1..];
    } else {
      assert (a + [c] + b)[1..] == a[1..] + [c] + b && (a + [d] + b)[1..] == a[1..] + [d] + b;
      SqueezeSubstitutes(a[1..], c, d, b, room);
      if room > 0 {
        SqueezeSubstitutes(a[1..], c, d, b, room - 1);
      }
    }
  }

  /** A control, a separator or a character beyond ASCII counts as an underscore. */
  lemma UnderscoreStandsFor(a: string, c: char, b: string, number: nat)
    requires c < ' ' || c as int >= 0x80 || c in "\"*+,/:;<=>?[\\]|"
    ensures AliasOf(a + [c] + b, number) == AliasOf(a + "_" + b, number)
  {
    hide Squeeze, StemOf;
    Substitute(a, c, '_', b);
    SameParts(a + [c] + b, a + "_" + b, number);
  }

  lemma Substitute(a: string, c: char, d: char, b: string)
    requires !IsDropped(c) && !IsDropped(d) && AliasChar(c) == AliasChar(d)
    ensures Stem(a + [c] + b) == Stem(a + [d] + b) && Extension(a + [c] + b) == Extension(a + [d] + b)
  {
    hide Squeeze, StemOf, LastDot, Stem, Extension, AliasChar, BasePart, ExtensionPart;
    var t := Trim(a);
    TrimAppend(a, [c] + b);
    TrimAppend(a, [d] + b);
    assert a + [c] + b == a + ([c] + b) && a + [d] + b == a + ([d] + b);
    assert t + ([c] + b) == t + [c] + b && t + ([d] + b) == t + [d] + b;
    PartsOf(a + [c] + b, t + [c] + b);
    PartsOf(a + [d] + b, t + [d] + b);
    SubstitutesInside(t, c, d, b);
  }

  lemma SubstitutesInside(t: string, c: char, d: char, b: string)
    requires !IsDropped(c) && !IsDropped(d) && AliasChar(c) == AliasChar(d)
    ensures StemOf(BasePart(t + [c] + b)) == StemOf(BasePart(t + [d] + b))
    ensures Squeeze(ExtensionPart(t + [c] + b), EXTENSION_LENGTH) == Squeeze(ExtensionPart(t + [d] + b), EXTENSION_LENGTH)
  {
    hide Squeeze, StemOf, LastDot, AliasChar, BasePart, ExtensionPart;
    PartsAround(t, c, b);
    PartsAround(t, d, b);
    if LastDot(b) >= 0 {
      StemsAlike(t, c, d, b[..LastDot(b)]);
    } else if LastDot(t) >= 0 {
      SqueezeSubstitutes(t[LastDot(t) + 1..], c, d, b, EXTENSION_LENGTH);
    } else {
      StemsAlike(t, c, d, b);
    }
  }

  lemma StemsAlike(t: string, c: char, d: char, b: string)
    requires !IsDropped(c) && !IsDropped(d) && AliasChar(c) == AliasChar(d)
    ensures StemOf(t + [c] + b) == StemOf(t + [d] + b)
  {
    SqueezeSubstitutes(t, c, d, b, BASE_LENGTH);
  }
}
