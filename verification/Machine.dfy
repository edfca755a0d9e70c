/** The fixed-width types the DOS layer computes with, and its little-endian byte access. */
module Machine {
  type Byte = x: int | 0 <= x < 0x100
  type Word = x: int | 0 <= x < 0x1_0000
  type Dword = x: int | 0 <= x < 0x1_0000_0000

  datatype Option<T> = None | Some(value: T)

  /** The C cast `(WORD)value`, for a value at most one sum or difference away from the WORD range. */
  function ToWord(value: int): Word
    requires -0x1_0000 <= value < 0x2_0000
  {
    if value < 0 then value + 0x1_0000 else if value < 0x1_0000 then value else value - 0x1_0000
  }

  function WordOf(low: Byte, high: Byte): Word {
    low + 0x100 * high
  }

  /** The word stored low byte first at `address`. */
  function WordIn(memory: seq<Byte>, address: nat): Word
    requires address + 1 < |memory|
  {
    WordOf(memory[address], memory[address + 1])
  }

  /** The two memories agree outside the bytes lo..hi. */
  ghost predicate SameOutside(was: seq<Byte>, now: seq<Byte>, lo: int, hi: int) {
    |was| == |now| && forall k :: 0 <= k < |was| && !(lo <= k < hi) ==> now[k] == was[k]
  }

  method ReadWord(memory: array<Byte>, address: nat) returns (value: Word)
    requires address + 1 < memory.Length
    ensures value == WordIn(memory[..], address)
  {
    value := WordOf(memory[address], memory[address + 1]);
  }

  method WriteWord(memory: array<Byte>, address: nat, value: Word)
    requires address + 1 < memory.Length
    modifies memory
    ensures WordIn(memory[..], address) == value
    ensures SameOutside(old(memory[..]), memory[..], address, address + 2)
  {
    memory[address] := value % 0x100;
    memory[address + 1] := value / 0x100;
  }

  function Min(a: int, b: int): int {
    if a < b then a else b
  }

  function Max(a: int, b: int): int {
    if a < b then b else a
  }

  /** The characters before the first NUL. */
  function UpToNul(s: seq<Byte>): (r: seq<Byte>)
    ensures |r| <= |s| && r == s[..|r|] && 0 !in r && (|r| < |s| ==> s[|r|] == 0)
  {
    if s == [] || s[0] == 0 then [] else [s[0]] + UpToNul(s[1..])
  }
}
