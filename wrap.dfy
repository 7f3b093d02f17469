/** wrap: cut the string into consecutive pieces of max_width characters (the
    last one may be shorter) and join them with newlines; reject the input
    with a fixed message unless 0 < max_width < len(string). */
module TextWrap {
  import opened Strings

  /** The message wrap returns on rejected input: the string literal of
      Hackerrank_solutions.py:64, split at word boundaries into pieces that
      concatenate to exactly that text. */
  const InvalidInput: string :=
    "Invalid input. " + "Please make sure that " + "the length of the string " +
    "is greater than 0 and " + "the maximum width is " + "less than the length " +
    "of the string."

  function Min(a: int, b: int): int { if a <= b then a else b }

  /** The guard of wrap: a non-empty string and a width strictly between 0 and its length. */
  predicate Accepts(s: string, maxWidth: int)
  {
    |s| > 0 && 0 < maxWidth < |s|
  }

  /** The pieces the loop of wrap appends to wrapped_string, front to back;
      each is non-empty and at most width long. */
  function Chunks(s: string, width: nat): (chunks: seq<string>)
    requires width > 0
    ensures forall i | 0 <= i < |chunks| :: 0 < |chunks[i]| <= width
    decreases |s|
  {
    if s == [] then []
    else
      var n := Min(width, |s|);
      [s[..n]] + Chunks(s[n..], width)
  }

  /** What wrap returns. It is the fixed message exactly when the guard fails:
      an accepted string is cut into two pieces or more, so its output holds a
      newline, and the message holds none. */
  function Wrapped(s: string, maxWidth: int): (r: string)
    ensures r == InvalidInput <==> !Accepts(s, maxWidth)
  {
    if Accepts(s, maxWidth) then
      var c := Chunks(s, maxWidth);
      ChunksCount(s, maxWidth);
      JoinSeparatorAt(c, '\n');
      MessageHasNoNewline();
      Join(c, '\n')
    else
      InvalidInput
  }

  /** The loop of wrap: `start` walks the string in steps of max_width (the last
      step shorter), each step appending s[start:end]. */
  method Wrap(s: string, maxWidth: int) returns (r: string)
    ensures r == Wrapped(s, maxWidth)
  {
    var start := 0;
    var wrappedString: seq<string> := [];
    if |s| > 0 && 0 < maxWidth < |s| {
      while start < |s|
        invariant 0 <= start <= |s|
        invariant wrappedString + Chunks(s[start..], maxWidth) == Chunks(s, maxWidth)
        decreases |s| - start
      {
        var end := start + maxWidth;
        if end > |s| {
          end := |s|;
        }
        assert end - start == Min(maxWidth, |s| - start) > 0;
        assert s[start..][..end - start] == s[start..end];
        assert s[start..][end - start..] == s[end..];
        wrappedString := wrappedString + [s[start..end]];
        start := end;
      }
      assert s[|s|..] == [];
      assert wrappedString == Chunks(s, maxWidth);
      r := Join(wrappedString, '\n');
    } else {
      r := InvalidInput;
    }
  }

  /** Piece i is s[i*width : (i+1)*width], cut short at the end of the string. */
  lemma {:induction false} ChunkAt(s: string, width: nat, i: nat)
    requires width > 0 && i < |Chunks(s, width)|
    ensures i * width < |s|
    ensures Chunks(s, width)[i] == s[i * width..Min(i * width + width, |s|)]
    decreases |s|
  {
    var n := Min(width, |s|);
    if i > 0 {
      ChunkAt(s[n..], width, i - 1);
      assert n == width;
      assert (i - 1) * width + width == i * width;
    }
  }

  /** Gluing the pieces back together gives the string. */
  lemma {:induction false} ChunksConcat(s: string, width: nat)
    requires width > 0
    ensures Concat(Chunks(s, width)) == s
    decreases |s|
  {
    if s != [] {
      var n := Min(width, |s|);
      ChunksConcat(s[n..], width);
      assert s == s[..n] + s[n..];
    }
  }

  /** Every piece but the last is exactly width long; the last is 1..width long. */
  lemma ChunksWidths(s: string, width: nat)
    requires width > 0
    ensures var c := Chunks(s, width);
      && (forall i | 0 <= i < |c| - 1 :: |c[i]| == width)
      && (c != [] ==> 1 <= |c[|c| - 1]| <= width)
  {
    var c := Chunks(s, width);
    forall i | 0 <= i < |c| - 1 ensures |c[i]| == width {
      ChunkAt(s, width, i);
      ChunkAt(s, width, i + 1);
      assert (i + 1) * width == i * width + width;
    }
    if c != [] {
      ChunkAt(s, width, |c| - 1);
    }
  }

  /** There are ceil(|s| / width) pieces: k pieces of at most width cover s, and
      k - 1 pieces of width do not. */
  lemma {:induction false} ChunksCount(s: string, width: nat)
    requires width > 0
    ensures var k := |Chunks(s, width)|; (k - 1) * width < |s| <= k * width || (s == [] && k == 0)
    ensures |Chunks(s, width)| == (|s| + width - 1) / width
    decreases |s|
  {
    var k := |Chunks(s, width)|;
    if s != [] {
      var n := Min(width, |s|);
      ChunksCount(s[n..], width);
      assert (k - 1) * width + width == k * width;
      assert (k - 2) * width + width == (k - 1) * width;
    }
    CeilDiv(|s|, width, k);
  }

  /** k is the ceiling of a / w when (k - 1) * w < a <= k * w (and 0 for a == 0). */
  lemma CeilDiv(a: nat, w: nat, k: nat)
    requires w > 0
    requires (k - 1) * w < a <= k * w || (a == 0 && k == 0)
    ensures (a + w - 1) / w == k
  {
    var b := a + w - 1;
    assert k * w <= b < k * w + w;
    DivOfRange(b, w, k);
  }

  lemma DivOfRange(b: int, w: nat, k: int)
    requires w > 0 && k * w <= b < k * w + w
    ensures b / w == k
  {
    var q, r := b / w, b % w;
    assert b == q * w + r && 0 <= r < w;
    if q < k {
      MulMonotone(q, k - 1, w);
      assert false;
    } else if q > k {
      MulMonotone(k + 1, q, w);
      assert false;
    }
  }

  lemma MulMonotone(x: int, y: int, w: nat)
    requires x <= y
    ensures x * w <= y * w
  {
    assert y * w - x * w == (y - x) * w;
  }

  /** The rejection message is one line. */
  lemma MessageHasNoNewline()
    ensures '\n' !in InvalidInput
  {
  }

  /** On accepted input, wrap's output cut at the newlines gives back the pieces,
      provided the string itself holds no newline. */
  lemma WrapLines(s: string, maxWidth: int)
    requires Accepts(s, maxWidth) && '\n' !in s
    ensures SplitOn(Wrapped(s, maxWidth), '\n') == Chunks(s, maxWidth)
  {
    var c := Chunks(s, maxWidth);
    forall p | p in c ensures '\n' !in p {
      var i :| 0 <= i < |c| && c[i] == p;
      ChunkAt(s, maxWidth, i);
    }
    SplitOnJoin(c, '\n');
  }
}
