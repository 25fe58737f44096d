/**
  C strings and the few library calls on them that the firmware relies on.
  A C `char` is a Dafny `char`, and a C string is the part of a buffer that
  precedes its first NUL.
*/
module CStrings {

  datatype Option<+T> = None | Some(value: T)

  const NUL := '\0'

  predicate NulFree(text: string) {
    NUL !in text
  }

  /** `strchr` as an index: the first position of `c`, or the length when there is none. */
  function IndexOf(text: string, c: char): (i: nat)
    ensures i <= |text|
    ensures forall j :: 0 <= j < i ==> text[j] != c
    ensures i < |text| ==> text[i] == c
  {
    if text == [] || text[0] == c then 0 else 1 + IndexOf(text[1..], c)
  }

  lemma IndexOfIs(text: string, c: char, i: nat)
    requires i <= |text| && forall j :: 0 <= j < i ==> text[j] != c
    requires i < |text| ==> text[i] == c
    ensures IndexOf(text, c) == i
  {
  }

  /** The C string held by a buffer. */
  function Terminated(buffer: string): (text: string)
    ensures NulFree(text) && |text| <= |buffer|
    ensures NulFree(buffer) ==> text == buffer
  {
    var i := IndexOf(buffer, NUL);
    assert i < |buffer| ==> buffer[i] in buffer;
    buffer[..i]
  }

  /** `strstr` reduced to its answer. */
  predicate Contains(text: string, part: string) {
    exists i :: 0 <= i <= |text| && Occurs(part, text, i)
  }

  predicate Occurs(part: string, text: string, i: nat) {
    i + |part| <= |text| && text[i..i + |part|] == part
  }

  predicate IsBlank(c: char) {
    c == ' ' || c == '\t'
  }

  predicate Solid(text: string) {
    forall i :: 0 <= i < |text| ==> !IsBlank(text[i])
  }

  function TrimLeft(text: string): (rest: string)
    ensures |rest| <= |text|
    ensures rest != [] ==> !IsBlank(rest[0])
  {
    if text != [] && IsBlank(text[0]) then TrimLeft(text[1..]) else text
  }

  function TrimRight(text: string): (rest: string)
    ensures |rest| <= |text| && rest == text[..|rest|]
    ensures rest != [] ==> !IsBlank(rest[|rest| - 1])
  {
    if text != [] && IsBlank(text[|text| - 1]) then TrimRight(text[..|text| - 1]) else text
  }

  lemma TrimLeftIs(text: string, k: nat)
    requires k <= |text| && forall j :: 0 <= j < k ==> IsBlank(text[j])
    requires k < |text| ==> !IsBlank(text[k])
    ensures TrimLeft(text) == text[k..]
  {
    if k > 0 {
      TrimLeftIs(text[1..], k - 1);
      assert text[1..][k - 1..] == text[k..];
    }
  }

  lemma TrimRightIs(text: string, k: nat)
    requires k <= |text| && forall j :: k <= j < |text| ==> IsBlank(text[j])
    requires k > 0 ==> !IsBlank(text[k - 1])
    ensures TrimRight(text) == text[..k]
  {
    if k < |text| {
      TrimRightIs(text[..|text| - 1], k);
      assert text[..|text| - 1][..k] == text[..k];
    }
  }

  /** Trimming stops at the last byte that is not blank. */
  lemma TrimRightKeeps(text: string, k: nat)
    requires k < |text| && !IsBlank(text[k])
    ensures k < |TrimRight(text)|
  {
  }

  function Trim(text: string): string {
    TrimRight(TrimLeft(text))
  }
}
