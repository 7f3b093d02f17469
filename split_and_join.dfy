/** split_and_join: line.split() cuts the line at runs of whitespace and drops
    the empty pieces; '-'.join(...) glues the remaining tokens with one '-'. */
module SplitAndJoin {
  import opened Strings

  /** The characters below 128 that str.split() with no argument treats as
      whitespace: space, tab, line feed, vertical tab, form feed, carriage
      return and the four information separators 0x1C..0x1F. */
  predicate IsSpace(c: char)
  {
    c == ' ' || 9 <= c as int <= 13 || 28 <= c as int <= 31
  }

  predicate NoSpace(s: string)
  {
    forall i | 0 <= i < |s| :: !IsSpace(s[i])
  }

  predicate AllSpace(s: string)
  {
    forall i | 0 <= i < |s| :: IsSpace(s[i])
  }

  /** What str.split() can return as one element. */
  predicate IsToken(t: string)
  {
    t != [] && NoSpace(t)
  }

  /** The longest prefix of s that holds no whitespace. */
  function Word(s: string): (w: string)
    ensures |w| <= |s| && w == s[..|w|]
    ensures NoSpace(w)
    ensures |w| == |s| || IsSpace(s[|w|])
  {
    if s == [] || IsSpace(s[0]) then [] else [s[0]] + Word(s[1..])
  }

  /** line.split(): the maximal whitespace-free runs of the line, in order. */
  function Split(s: string): (tokens: seq<string>)
    ensures forall t | t in tokens :: IsToken(t)
    decreases |s|
  {
    if s == [] then []
    else if IsSpace(s[0]) then Split(s[1..])
    else
      var w := Word(s);
      [w] + Split(s[|w|..])
  }

  /** split_and_join(line) == '-'.join(line.split()): no whitespace is left,
      and the result is "" exactly when the line is empty or all whitespace. */
  function SplitAndJoin(line: string): (r: string)
    ensures NoSpace(r)
    ensures r == [] <==> AllSpace(line)
  {
    var tokens := Split(line);
    JoinNoSpace(tokens);
    SplitEmpty(line);
    if tokens != [] then
      assert tokens[0] in tokens;
      Join(tokens, '-')
    else
      Join(tokens, '-')
  }

  /** gaps[0] + tokens[0] + gaps[1] + ... + tokens[n-1] + gaps[n]. */
  function Weave(gaps: seq<string>, tokens: seq<string>): string
    requires |gaps| == |tokens| + 1
    decreases tokens
  {
    if tokens == [] then gaps[0] else gaps[0] + tokens[0] + Weave(gaps[1..], tokens[1..])
  }

  /** A way of laying a line out as whitespace gaps around tokens: every gap is
      whitespace, every token is whitespace-free and non-empty, and the gaps
      between two tokens are non-empty (the outer two may be empty). */
  predicate IsLayout(gaps: seq<string>, tokens: seq<string>)
  {
    && |gaps| == |tokens| + 1
    && (forall t | t in tokens :: IsToken(t))
    && (forall g | g in gaps :: AllSpace(g))
    && (forall i | 0 < i < |tokens| :: gaps[i] != [])
  }

  /** The whitespace gaps of a line around the tokens Split finds in it: every
      line is laid out by its own tokens. */
  ghost function Gaps(line: string): (gaps: seq<string>)
    ensures IsLayout(gaps, Split(line))
    ensures Weave(gaps, Split(line)) == line
    ensures line != [] && IsSpace(line[0]) ==> gaps[0] != []
    decreases |line|
  {
    if line == [] then [[]]
    else if IsSpace(line[0]) then
      var g := Gaps(line[1..]);
      WeaveConsFirst(line[0], g, Split(line[1..]));
      GapConsFirst(line[0], g, Split(line[1..]));
      [[line[0]] + g[0]] + g[1..]
    else
      var w := Word(line);
      var rest := line[|w|..];
      assert line == w + rest;
      [[]] + Gaps(rest)
  }

  /** Prepending a character to the first gap prepends it to the woven line. */
  lemma WeaveConsFirst(c: char, gaps: seq<string>, tokens: seq<string>)
    requires |gaps| == |tokens| + 1
    ensures Weave([[c] + gaps[0]] + gaps[1..], tokens) == [c] + Weave(gaps, tokens)
  {
    var gs := [[c] + gaps[0]] + gaps[1..];
    assert gs[1..] == gaps[1..];
  }

  /** Prepending whitespace to the first gap keeps a layout a layout. */
  lemma GapConsFirst(c: char, gaps: seq<string>, tokens: seq<string>)
    requires IsSpace(c) && IsLayout(gaps, tokens)
    ensures IsLayout([[c] + gaps[0]] + gaps[1..], tokens)
  {
    var gs := [[c] + gaps[0]] + gaps[1..];
    assert gaps[0] in gaps;
    forall g | g in gs ensures AllSpace(g) {
      if g != gs[0] {
        assert g in gaps[1..];
      }
    }
  }

  /** Leading whitespace does not change what Split finds. */
  lemma {:induction false} SplitSkipsSpace(g: string, s: string)
    requires AllSpace(g)
    ensures Split(g + s) == Split(s)
  {
    if g != [] {
      SplitSkipsSpace(g[1..], s);
      assert (g + s)[1..] == g[1..] + s;
    } else {
      assert g + s == s;
    }
  }

  /** A token followed by nothing or by whitespace is read as one word. */
  lemma {:induction false} WordOfToken(t: string, y: string)
    requires NoSpace(t)
    requires y == [] || IsSpace(y[0])
    ensures Word(t + y) == t
  {
    if t != [] {
      WordOfToken(t[1..], y);
      assert (t + y)[1..] == t[1..] + y;
    } else {
      assert t + y == y;
    }
  }

  /** Split recovers exactly the tokens of any layout: whatever whitespace
      surrounds or separates them, the tokens come back in order. */
  lemma {:induction false} SplitOfLayout(gaps: seq<string>, tokens: seq<string>)
    requires IsLayout(gaps, tokens)
    ensures Split(Weave(gaps, tokens)) == tokens
  {
    if tokens == [] {
      SplitSkipsSpace(gaps[0], []);
      assert gaps[0] + [] == gaps[0];
    } else {
      var t := tokens[0];
      var y := Weave(gaps[1..], tokens[1..]);
      assert IsLayout(gaps[1..], tokens[1..]) by {
        forall g | g in gaps[1..] ensures AllSpace(g) {
          assert g in gaps;
        }
      }
      SplitOfLayout(gaps[1..], tokens[1..]);
      assert y == [] || IsSpace(y[0]) by {
        assert gaps[1] in gaps;
        if tokens[1..] != [] {
          assert gaps[1..][0] == gaps[1] && gaps[1] != [];
          assert y == gaps[1] + tokens[1] + Weave(gaps[2..], tokens[2..]) by {
            assert gaps[1..][1..] == gaps[2..] && tokens[1..][1..] == tokens[2..];
          }
          assert y[0] == gaps[1][0];
        } else {
          assert y == gaps[1];
        }
      }
      assert t in tokens;
      WordOfToken(t, y);
      assert (t + y)[|t|..] == y;
      SplitSkipsSpace(gaps[0], t + y);
      assert Weave(gaps, tokens) == gaps[0] + (t + y);
      assert tokens == [t] + tokens[1..];
    }
  }

  /** Joining whitespace-free tokens with '-' leaves no whitespace. */
  lemma JoinNoSpace(tokens: seq<string>)
    requires forall t | t in tokens :: NoSpace(t)
    ensures NoSpace(Join(tokens, '-'))
  {
    var r := Join(tokens, '-');
    forall i | 0 <= i < |r| ensures !IsSpace(r[i]) {
      JoinChars(tokens, '-', i);
      if r[i] != '-' {
        var t :| t in tokens && r[i] in t;
        assert NoSpace(t);
      }
    }
  }

  /** The line splits into no token exactly when it is all whitespace. */
  lemma {:induction false} SplitEmpty(line: string)
    ensures Split(line) == [] <==> AllSpace(line)
    decreases |line|
  {
    if line != [] && IsSpace(line[0]) {
      SplitEmpty(line[1..]);
      assert AllSpace(line) <==> AllSpace(line[1..]) by {
        if AllSpace(line[1..]) {
          forall i | 0 <= i < |line| ensures IsSpace(line[i]) {
            if i > 0 { assert line[i] == line[1..][i - 1]; }
          }
        }
      }
    }
  }

  /** A non-empty result begins with the first token and ends with the last,
      so it starts or ends with '-' only when that token does. */
  lemma SplitAndJoinEnds(line: string)
    requires Split(line) != []
    ensures var tokens, r := Split(line), SplitAndJoin(line);
      && |r| >= |tokens[0]| && |r| >= |tokens[|tokens| - 1]|
      && r[..|tokens[0]|] == tokens[0]
      && r[|r| - |tokens[|tokens| - 1]|..] == tokens[|tokens| - 1]
  {
    JoinEnds(Split(line), '-');
  }

  /** Whatever whitespace lays out a line, split_and_join yields its tokens with
      exactly one '-' between neighbours. */
  lemma SplitAndJoinOfLayout(gaps: seq<string>, tokens: seq<string>)
    requires IsLayout(gaps, tokens)
    ensures SplitAndJoin(Weave(gaps, tokens)) == Join(tokens, '-')
  {
    SplitOfLayout(gaps, tokens);
  }

  /** When no token holds '-', cutting the output at '-' gives back line.split(). */
  lemma SplitAndJoinRoundTrip(line: string)
    requires Split(line) != []
    requires forall t | t in Split(line) :: '-' !in t
    ensures SplitOn(SplitAndJoin(line), '-') == Split(line)
  {
    SplitOnJoin(Split(line), '-');
  }
}
