/** dos_alias.c's loops over one name: building an alias, recognising 8.3 names, comparing case-blind. */
module AliasText {
  import opened AliasName

  /** DosAliasMake: `longName` up to its NUL, the alias up to its own. */
  method DosAliasMake(longName: string, number: nat) returns (out: string)
    ensures out == AliasOf(longName, number)
  {
    hide Trim, Squeeze, Decimal, LastDot;
    var first := SkipLeading(longName);
    var lastDot := FindLastDot(longName, first);
    var baseEnd := if lastDot < 0 then |longName| else lastDot;
    assert longName[first..baseEnd] == BasePart(longName[first..]);
    var base := CollectBase(longName, first, baseEnd);
    var extension := "";
    if lastDot >= 0 {
      extension := CollectExtension(longName, lastDot + 1);
      assert longName[first..][lastDot - first + 1..] == longName[lastDot + 1..];
    }
    if base == "" {
      base := "_";
    }
    SqueezeNothing();
    var digits := FormatNumber(number);
    ghost var _ := NumberDigits(longName, number);
    out := Assemble(longName, base, digits, extension);
  }

  lemma SqueezeNothing()
    ensures Squeeze("", EXTENSION_LENGTH) == ""
  {
  }

  method SkipLeading(longName: string) returns (first: nat)
    ensures first <= |longName| && longName[first..] == Trim(longName)
  {
    first := 0;
    while first < |longName| && IsDropped(longName[first])
      invariant first <= |longName|
      invariant Trim(longName[first..]) == Trim(longName)
    {
      assert longName[first..][1..] == longName[first + 1..];
      first := first + 1;
    }
  }

  lemma LastDotStep(s: string, c: char)
    ensures LastDot(s + [c]) == if c == '.' then |s| else LastDot(s)
  {
    assert (s + [c])[..|s|] == s;
  }

  method FindLastDot(longName: string, first: nat) returns (lastDot: int)
    requires first <= |longName|
    ensures lastDot == -1 || first <= lastDot < |longName|
    ensures LastDot(longName[first..]) == if lastDot < 0 then -1 else lastDot - first
  {
    lastDot := -1;
    var index := first;
    while index < |longName|
      invariant first <= index <= |longName|
      invariant lastDot == -1 || first <= lastDot < index
      invariant LastDot(longName[first..index]) == if lastDot < 0 then -1 else lastDot - first
    {
      if longName[index] == '.' {
        lastDot := index;
      }
      LastDotStep(longName[first..index], longName[index]);
      assert longName[first..index + 1] == longName[first..index] + [longName[index]];
      index := index + 1;
    }
    assert longName[first..index] == longName[first..];
  }

  method CollectBase(longName: string, first: nat, end: nat) returns (base: string)
    requires first <= end <= |longName|
    ensures base == Squeeze(longName[first..end], BASE_LENGTH)
  {
    base := "";
    var index := first;
    while index < end
      invariant first <= index <= end
      invariant |base| <= BASE_LENGTH
      invariant base + Squeeze(longName[index..end], BASE_LENGTH - |base|) == Squeeze(longName[first..end], BASE_LENGTH)
    {
      assert longName[index..end][1..] == longName[index + 1..end];
      if longName[index] != ' ' && longName[index] != '.' && |base| < BASE_LENGTH {
        base := base + [AliasChar(longName[index])];
      }
      index := index + 1;
    }
  }

  method CollectExtension(longName: string, start: nat) returns (extension: string)
    requires start <= |longName|
    ensures extension == Squeeze(longName[start..], EXTENSION_LENGTH)
  {
    extension := "";
    var index := start;
    while index < |longName| && |extension| < EXTENSION_LENGTH
      invariant start <= index <= |longName|
      invariant |extension| <= EXTENSION_LENGTH
      invariant extension + Squeeze(longName[index..], EXTENSION_LENGTH - |extension|)
             == Squeeze(longName[start..], EXTENSION_LENGTH)
    {
      assert longName[index..][1..] == longName[index + 1..];
      if longName[index] != ' ' && longName[index] != '.' {
        extension := extension + [AliasChar(longName[index])];
      }
      index := index + 1;
    }
  }

  method FormatNumber(number: nat) returns (digits: string)
    ensures digits == Decimal(Clamp(number))
  {
    var remaining: nat := number;
    if remaining > MAX_NUMBER {
      remaining := MAX_NUMBER;
    }
    digits := "";
    while true
      invariant Decimal(remaining) + digits == Decimal(Clamp(number))
      decreases remaining
    {
      ghost var after := digits;
      digits := [Digit(remaining % 10)] + digits;
      if remaining < 10 {
        break;
      }
      assert Decimal(remaining) + after == Decimal(remaining / 10) + digits;
      remaining := remaining / 10;
    }
  }

  /** Stem, suffix and extension put together. */
  method Assemble(longName: string, base: string, digits: string, extension: string) returns (out: string)
    requires base == Stem(longName) && extension == Extension(longName) && 1 <= |digits| <= 6
    ensures out == AliasWith(longName, digits)
  {
    var suffix := "~" + digits;
    var stemLength := BASE_LENGTH - |suffix|;
    if stemLength > |base| {
      stemLength := |base|;
    }
    assert base[..stemLength] == Take(base, BASE_LENGTH - 1 - |digits|);
    out := base[..stemLength] + suffix;
    assert out == base[..stemLength] + "~" + digits;
    if extension != "" {
      out := out + ".";
      out := out + extension;
    }
  }

  /** DosAliasIsShortName, by counting; it accepts exactly the legal 8.3 names. */
  method DosAliasIsShortName(name: string) returns (isShort: bool)
    ensures isShort <==> IsShortName(name)
  {
    if name == "" || name[0] == '.' {
      return false;
    }
    var baseLength := 0;
    var extensionLength := -1;
    var index := 0;
    while index < |name|
      invariant 0 <= index <= |name| && 0 <= baseLength <= BASE_LENGTH
      invariant extensionLength == -1 ==> baseLength == index && IsPlain(name[..index])
      invariant extensionLength >= 0 ==>
                  && 1 <= baseLength < index && name[baseLength] == '.' && IsPlain(name[..baseLength])
                  && extensionLength == index - baseLength - 1 <= EXTENSION_LENGTH
                  && IsPlain(name[baseLength + 1..index])
      invariant -1 <= extensionLength
    {
      assert name[..index + 1] == name[..index] + [name[index]];
      assert extensionLength >= 0 ==> name[baseLength + 1..index + 1] == name[baseLength + 1..index] + [name[index]];
      if name[index] == '.' {
        if extensionLength >= 0 {
          NotShort(name, baseLength, index);
          return false;
        }
        extensionLength := 0;
      } else {
        if IsBad(name[index]) {
          BadNotShort(name, index);
          return false;
        }
        if extensionLength >= 0 {
          extensionLength := extensionLength + 1;
          if extensionLength > EXTENSION_LENGTH {
            NotShort(name, baseLength, index);
            return false;
          }
        } else {
          baseLength := baseLength + 1;
          if baseLength > BASE_LENGTH {
            LongNotShort(name, index);
            return false;
          }
        }
      }
      index := index + 1;
    }
    assert name[..index] == name;
    if extensionLength >= 0 {
      assert name[baseLength + 1..index] == name[baseLength + 1..];
      assert SplitsAt(name, baseLength);
    }
    isShort := true;
  }

  /** A name whose first dot is at k has no other split, and none when a dot or a fourth character follows. */
  lemma NotShort(name: string, k: int, at: int)
    requires 0 <= k < at < |name| && name[k] == '.' && IsPlain(name[..k])
    requires name[at] == '.' || at > k + EXTENSION_LENGTH
    ensures !IsShortName(name)
  {
    forall n | 1 <= n < |name|
      ensures !SplitsAt(name, n)
    {
      if n < k {
        assert name[..k][n] == name[n];
      } else if k < n {
        assert name[..n][k] == name[k];
      } else {
        assert name[n + 1..][at - n - 1] == name[at];
      }
    }
  }

  lemma BadNotShort(name: string, at: int)
    requires 0 <= at < |name| && IsBad(name[at])
    ensures !IsShortName(name)
  {
    forall n | 1 <= n < |name|
      ensures !SplitsAt(name, n)
    {
      if at < n {
        assert name[..n][at] == name[at];
      } else if at > n {
        assert name[n + 1..][at - n - 1] == name[at];
      }
    }
  }

  lemma LongNotShort(name: string, at: int)
    requires BASE_LENGTH <= at < |name| && IsPlain(name[..at]) && name[at] != '.'
    ensures !IsShortName(name)
  {
    forall n | 1 <= n < |name|
      ensures !SplitsAt(name, n)
    {
      if n < at {
        assert name[..at][n] == name[n];
      }
    }
  }

  /** The part of `s` a comparison of `length` characters looks at; all of it for a negative length. */
  function Prefix(s: string, length: int): string {
    if 0 <= length < |s| then s[..length] else s
  }

  /** DosAliasSameText: case-blind, the first `length` characters of `first` against all of `second`. */
  method DosAliasSameText(first: string, second: string, length: int) returns (same: bool)
    ensures same <==> SameText(Prefix(first, length), second)
  {
    var index := 0;
    while length < 0 || index < length
      invariant 0 <= index <= |first| && index <= |second| && (length >= 0 ==> index <= length)
      invariant forall i :: 0 <= i < index ==> Upper(first[i]) == Upper(second[i])
      decreases |first| - index
    {
      if index == |first| || index == |second| {
        // A NUL on one side; equal only when on both.
        return index == |first| && index == |second|;
      }
      if Upper(first[index]) != Upper(second[index]) {
        assert UpperAll(Prefix(first, length))[index] != UpperAll(second)[index];
        return false;
      }
      index := index + 1;
    }
    same := index == |second|;
  }
}
