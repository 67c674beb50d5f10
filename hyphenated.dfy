/**
 * Lists stored in one column: `join("-")` when a record is written and
 * `split('-')` when it is read back.
 */
module Hyphenated {

  /** `parts.join("-")`. */
  function Join(parts: seq<string>): string
  {
    if |parts| == 0 then ""
    else if |parts| == 1 then parts[0]
    else parts[0] + "-" + Join(parts[1..])
  }

  /** `s.split('-')`: the pieces between hyphens, in order. There is always
      at least one piece; the empty string splits to `[""]`. */
  function Split(s: string): (parts: seq<string>)
    ensures |parts| >= 1
    ensures forall p :: p in parts ==> '-' !in p
    decreases |s|
  {
    if s == [] then [""]
    else
      var rest := Split(s[1..]);
      if s[0] == '-' then [""] + rest
      else [[s[0]] + rest[0]] + rest[1..]
  }

  predicate NoHyphens(parts: seq<string>)
  {
    forall p :: p in parts ==> '-' !in p
  }

  /** Joining the pieces of a split gives back the string. */
  lemma {:induction false} JoinSplit(s: string)
    ensures Join(Split(s)) == s
    decreases |s|
  {
    if s != [] {
      var rest := Split(s[1..]);
      JoinSplit(s[1..]);
      if s[0] == '-' {
        assert ([""] + rest)[1..] == rest;
        assert s == "-" + s[1..];
      } else if |rest| == 1 {
        assert s == [s[0]] + s[1..];
      } else {
        var parts := [[s[0]] + rest[0]] + rest[1..];
        assert parts[1..] == rest[1..];
        assert Join(rest) == rest[0] + "-" + Join(rest[1..]);
        assert s == [s[0]] + s[1..];
      }
    }
  }

  lemma {:induction false} SplitWord(w: string)
    requires '-' !in w
    ensures Split(w) == [w]
    decreases |w|
  {
    if w != [] {
      assert '-' !in w[1..];
      SplitWord(w[1..]);
      assert w == [w[0]] + w[1..];
    }
  }

  lemma {:induction false} SplitAfterWord(w: string, t: string)
    requires '-' !in w
    ensures Split(w + "-" + t) == [w] + Split(t)
    decreases |w|
  {
    if w == [] {
      assert (w + "-" + t)[1..] == t;
    } else {
      assert '-' !in w[1..];
      SplitAfterWord(w[1..], t);
      assert (w + "-" + t)[1..] == w[1..] + "-" + t;
      assert w == [w[0]] + w[1..];
    }
  }

  /** Splitting a join gives back the list, provided the list is not empty
      and no element contains the separator. */
  lemma {:induction false} SplitJoin(parts: seq<string>)
    requires |parts| >= 1 && NoHyphens(parts)
    ensures Split(Join(parts)) == parts
    decreases |parts|
  {
    assert parts[0] in parts;
    if |parts| == 1 {
      SplitWord(parts[0]);
    } else {
      assert NoHyphens(parts[1..]) by {
        forall p | p in parts[1..] ensures '-' !in p {
          assert p in parts;
        }
      }
      SplitJoin(parts[1..]);
      SplitAfterWord(parts[0], Join(parts[1..]));
      assert parts == [parts[0]] + parts[1..];
    }
  }

  /** The joined string of snake's predators, as the structs' test expects. */
  lemma JoinExample()
    ensures Join(["eagle", "mongoose"]) == "eagle-mongoose"
    ensures Join(["fox", "human"]) == "fox-human"
  {
  }
}
