/** Python's string joining and splitting on a separator, on which both
    split_and_join ('-'.join) and wrap ('\n'.join) are built. */
module Strings {

  /** sep.join(parts): the parts in order, one separator between neighbours. */
  function Join(parts: seq<string>, sep: char): (r: string)
    ensures parts == [] ==> r == []
    ensures parts != [] ==> |r| == |Concat(parts)| + |parts| - 1
  {
    if parts == [] then []
    else if |parts| == 1 then parts[0]
    else parts[0] + [sep] + Join(parts[1..], sep)
  }

  /** The parts glued together with nothing in between ("".join). */
  function Concat(parts: seq<string>): string
  {
    if parts == [] then [] else parts[0] + Concat(parts[1..])
  }

  /** s.split(sep): the pieces between separators; always at least one piece. */
  function SplitOn(s: string, sep: char): (pieces: seq<string>)
    ensures |pieces| >= 1
    ensures forall p | p in pieces :: sep !in p
    ensures |pieces| == Count(s, sep) + 1
  {
    if s == [] then [[]]
    else
      var rest := SplitOn(s[1..], sep);
      if s[0] == sep then [[]] + rest
      else [[s[0]] + rest[0]] + rest[1..]
  }

  /** How many times c occurs in s. */
  function Count(s: string, c: char): nat
  {
    if s == [] then 0 else (if s[0] == c then 1 else 0) + Count(s[1..], c)
  }

  /** Splitting what was joined gives the parts back, when no part holds the separator. */
  lemma {:induction false} SplitOnJoin(parts: seq<string>, sep: char)
    requires parts != []
    requires forall p | p in parts :: sep !in p
    ensures SplitOn(Join(parts, sep), sep) == parts
  {
    if |parts| == 1 {
      SplitOnFree(parts[0], sep);
    } else {
      SplitOnJoin(parts[1..], sep);
      SplitOnPrefix(parts[0], sep, Join(parts[1..], sep));
      assert parts == [parts[0]] + parts[1..];
    }
  }

  /** Joining what was split gives the string back: split and join are inverses. */
  lemma {:induction false} JoinSplitOn(s: string, sep: char)
    ensures Join(SplitOn(s, sep), sep) == s
  {
    if s != [] {
      var rest := SplitOn(s[1..], sep);
      JoinSplitOn(s[1..], sep);
      if s[0] == sep {
        assert [[]] + rest == SplitOn(s, sep);
        assert Join([[]] + rest, sep) == [] + [sep] + Join(rest, sep);
      } else {
        JoinConsFirst(s[0], rest, sep);
      }
      assert s == [s[0]] + s[1..];
    }
  }

  /** A string without the separator splits into itself alone. */
  lemma {:induction false} SplitOnFree(t: string, sep: char)
    requires sep !in t
    ensures SplitOn(t, sep) == [t]
  {
    if t != [] {
      SplitOnFree(t[1..], sep);
      assert t == [t[0]] + t[1..];
    }
  }

  /** Splitting t + [sep] + y, where t holds no separator, yields t first. */
  lemma {:induction false} SplitOnPrefix(t: string, sep: char, y: string)
    requires sep !in t
    ensures SplitOn(t + [sep] + y, sep) == [t] + SplitOn(y, sep)
  {
    if t == [] {
      assert t + [sep] + y == [sep] + y;
      assert ([sep] + y)[1..] == y;
    } else {
      SplitOnPrefix(t[1..], sep, y);
      assert (t + [sep] + y)[1..] == t[1..] + [sep] + y;
      assert t == [t[0]] + t[1..];
    }
  }

  /** Prepending a character to the first part prepends it to the joined string. */
  lemma JoinConsFirst(c: char, parts: seq<string>, sep: char)
    requires parts != []
    ensures Join([[c] + parts[0]] + parts[1..], sep) == [c] + Join(parts, sep)
  {
    var ps := [[c] + parts[0]] + parts[1..];
    assert ps[0] == [c] + parts[0] && ps[1..] == parts[1..];
    if |parts| >= 2 {
      calc {
        Join(ps, sep);
        ps[0] + [sep] + Join(ps[1..], sep);
        [c] + (parts[0] + [sep] + Join(parts[1..], sep));
      }
    }
  }

  /** The joined string starts with the first part and ends with the last one. */
  lemma {:induction false} JoinEnds(parts: seq<string>, sep: char)
    requires parts != []
    ensures |Join(parts, sep)| >= |parts[0]| && |Join(parts, sep)| >= |parts[|parts| - 1]|
    ensures Join(parts, sep)[..|parts[0]|] == parts[0]
    ensures Join(parts, sep)[|Join(parts, sep)| - |parts[|parts| - 1]|..] == parts[|parts| - 1]
  {
    if |parts| >= 2 {
      JoinEnds(parts[1..], sep);
    }
  }

  /** Every character of the joined string is the separator or comes from a part. */
  lemma {:induction false} JoinChars(parts: seq<string>, sep: char, i: nat)
    requires i < |Join(parts, sep)|
    ensures Join(parts, sep)[i] == sep || exists p | p in parts :: Join(parts, sep)[i] in p
  {
    if |parts| >= 2 {
      var j := Join(parts, sep);
      if i < |parts[0]| {
        assert j[i] in parts[0];
      } else if i > |parts[0]| {
        JoinChars(parts[1..], sep, i - |parts[0]| - 1);
        assert j[i] == Join(parts[1..], sep)[i - |parts[0]| - 1];
      }
    } else {
      assert Join(parts, sep)[i] in parts[0];
    }
  }

  /** With two parts or more the separator occurs right after the first part. */
  lemma JoinSeparatorAt(parts: seq<string>, sep: char)
    requires |parts| >= 2
    ensures |parts[0]| < |Join(parts, sep)| && Join(parts, sep)[|parts[0]|] == sep
  {
  }
}
