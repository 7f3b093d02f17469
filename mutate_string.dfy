/** mutate_string: string[:position] + character + string[position+1:]. */
module Mutation {

  /** Python's s[:n] for n >= 0: a bound past the end stops at the end. */
  function Before(s: string, n: nat): string
  {
    if n <= |s| then s[..n] else s
  }

  /** Python's s[n:] for n >= 0: a bound past the end gives "". */
  function From(s: string, n: nat): string
  {
    if n <= |s| then s[n..] else []
  }

  /** The string with the character at `position` replaced by `character`;
      `character` may be any string, as Python does not check its length. */
  function MutateString(s: string, position: nat, character: string): (r: string)
    ensures position < |s| ==>
      && |r| == |s| - 1 + |character|
      && r[..position] == s[..position]
      && r[position..position + |character|] == character
      && r[position + |character|..] == s[position + 1..]
    ensures position >= |s| ==> r == s + character
  {
    Before(s, position) + character + From(s, position + 1)
  }

  /** With one character and an index inside the string, mutate_string keeps the
      length, puts c at the index and leaves every other index alone. */
  lemma MutateOneChar(s: string, position: nat, c: char)
    requires position < |s|
    ensures |MutateString(s, position, [c])| == |s|
    ensures MutateString(s, position, [c])[position] == c
    ensures forall i | 0 <= i < |s| && i != position :: MutateString(s, position, [c])[i] == s[i]
  {
    var r := MutateString(s, position, [c]);
    forall i | 0 <= i < |s| && i != position ensures r[i] == s[i] {
      if i < position {
        assert r[i] == r[..position][i];
      } else {
        assert r[i] == r[position + 1..][i - position - 1];
      }
    }
  }

  /** Replacing one character is Dafny's sequence update s[position := c]. */
  lemma MutateIsUpdate(s: string, position: nat, c: char)
    requires position < |s|
    ensures MutateString(s, position, [c]) == s[position := c]
  {
    MutateOneChar(s, position, c);
  }

  /** Putting the old character back undoes the mutation. */
  lemma MutateRestore(s: string, position: nat, c: char)
    requires position < |s|
    ensures MutateString(MutateString(s, position, [c]), position, [s[position]]) == s
  {
    MutateIsUpdate(s, position, c);
    MutateIsUpdate(s[position := c], position, s[position]);
  }

  /** A second mutation at the same index overrides the first. */
  lemma MutateTwice(s: string, position: nat, c: char, d: char)
    requires position < |s|
    ensures MutateString(MutateString(s, position, [c]), position, [d]) == MutateString(s, position, [d])
  {
    MutateIsUpdate(s, position, c);
    MutateIsUpdate(s[position := c], position, d);
    MutateIsUpdate(s, position, d);
  }
}
