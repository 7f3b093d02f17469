/** swap_case: every upper-case letter is lowered, every other character is
    raised, so lower-case letters become upper case and the rest stay. */
module SwapCase {
  import opened Ascii

  /** What swap_case does to one character. */
  function SwapChar(c: char): (r: char)
    ensures IsUpper(r) <==> IsLower(c)
    ensures IsLower(r) <==> IsUpper(c)
    ensures IsUpper(c) ==> r as int - 'a' as int == c as int - 'A' as int
    ensures IsLower(c) ==> r as int - 'A' as int == c as int - 'a' as int
    ensures !IsUpper(c) && !IsLower(c) ==> r == c
  {
    if IsUpper(c) then ToLower(c) else ToUpper(c)
  }

  /** The string swap_case returns, one output character per input character. */
  function SwappedCase(s: string): (r: string)
    ensures |r| == |s|
  {
    if s == [] then [] else [SwapChar(s[0])] + SwappedCase(s[1..])
  }

  /** The loop of swap_case: `res` grows by the swapped form of each character. */
  method SwapCase(s: string) returns (res: string)
    ensures res == SwappedCase(s)
  {
    res := "";
    for i := 0 to |s|
      invariant res == SwappedCase(s[..i])
    {
      var ch := s[i];
      SwappedCaseConcat(s[..i], [ch]);
      assert s[..i + 1] == s[..i] + [ch];
      if IsUpper(ch) {
        res := res + [ToLower(ch)];
      } else {
        res := res + [ToUpper(ch)];
      }
    }
    assert s[..|s|] == s;
  }

  /** Swapping case works character by character, so it distributes over concatenation. */
  lemma {:induction false} SwappedCaseConcat(a: string, b: string)
    ensures SwappedCase(a + b) == SwappedCase(a) + SwappedCase(b)
  {
    if a != [] {
      SwappedCaseConcat(a[1..], b);
      assert (a + b)[1..] == a[1..] + b;
    } else {
      assert a + b == b;
    }
  }

  /** Position i of the result: an upper-case input is lowered, anything else is
      raised, and a character that is not a letter is unchanged. */
  lemma {:induction false} SwappedCaseAt(s: string, i: nat)
    requires i < |s|
    ensures IsUpper(s[i]) ==> SwappedCase(s)[i] == ToLower(s[i])
    ensures !IsUpper(s[i]) ==> SwappedCase(s)[i] == ToUpper(s[i])
    ensures !IsUpper(s[i]) && !IsLower(s[i]) ==> SwappedCase(s)[i] == s[i]
    ensures IsUpper(SwappedCase(s)[i]) <==> IsLower(s[i])
  {
    if i > 0 {
      SwappedCaseAt(s[1..], i - 1);
    }
  }

  /** One character swapped twice is itself. */
  lemma SwapCharTwice(c: char)
    ensures SwapChar(SwapChar(c)) == c
  {
    CaseInverse(c);
  }

  /** Swapping case twice gives back the original string. */
  lemma {:induction false} SwappedCaseInvolution(s: string)
    ensures SwappedCase(SwappedCase(s)) == s
  {
    if s != [] {
      SwappedCaseInvolution(s[1..]);
      SwapCharTwice(s[0]);
      var r := SwappedCase(s);
      assert r[1..] == SwappedCase(s[1..]);
      assert s == [s[0]] + s[1..];
    }
  }
}
