/**
 * The checks applied to what the user types before a command runs.
 */
module InputValidators {
  import opened Hyphenated
  import opened AnimalStructs

  predicate IsLower(ch: char)
  {
    'a' <= ch <= 'z'
  }

  /** `[a-z]*` */
  predicate Lowers(w: string)
  {
    forall ch :: ch in w ==> IsLower(ch)
  }

  /** `[a-z]+` */
  predicate IsWord(w: string)
  {
    |w| > 0 && Lowers(w)
  }

  /** What may follow the first letter: `[a-z]*(?:-[a-z]+)*`. */
  predicate MatchesTail(s: string)
    decreases |s|
  {
    || s == []
    || (IsLower(s[0]) && MatchesTail(s[1..]))
    || (s[0] == '-' && |s| > 1 && IsLower(s[1]) && MatchesTail(s[2..]))
  }

  /** The pattern `^[a-z]+(?:-[a-z]+)*$`, one character at a time. */
  predicate MatchesPattern(s: string)
  {
    |s| > 0 && IsLower(s[0]) && MatchesTail(s[1..])
  }

  /** The regex test: it accepts exactly the strings whose '-'-separated
      pieces are all non-empty runs of a-z. */
  function ValidStringLowercasedWithHyphens(s: string): (r: bool)
    ensures r <==> forall p :: p in Split(s) ==> IsWord(p)
  {
    ValidIffWords(s);
    MatchesPattern(s)
  }

  /** A tail holds only letters and hyphens, and does not end in a hyphen. */
  lemma {:induction false} TailChars(t: string)
    requires MatchesTail(t)
    ensures forall ch :: ch in t ==> IsLower(ch) || ch == '-'
    ensures t != [] ==> IsLower(t[|t| - 1])
    decreases |t|
  {
    if t != [] {
      if IsLower(t[0]) && MatchesTail(t[1..]) {
        TailChars(t[1..]);
        assert t == [t[0]] + t[1..];
      } else {
        TailChars(t[2..]);
        assert t == [t[0], t[1]] + t[2..];
      }
    }
  }

  /** The pieces of a tail: a run of letters, then words. */
  lemma {:induction false} TailPieces(t: string)
    requires MatchesTail(t)
    ensures Lowers(Split(t)[0])
    ensures forall j :: 1 <= j < |Split(t)| ==> IsWord(Split(t)[j])
    decreases |t|
  {
    if t == [] {
    } else if IsLower(t[0]) && MatchesTail(t[1..]) {
      TailPieces(t[1..]);
    } else {
      var u := t[1..];
      assert u[1..] == t[2..];
      TailPieces(t[2..]);
      assert Split(t) == [""] + Split(u);
    }
  }

  lemma {:induction false} LowersThenTail(u: string, t: string)
    requires Lowers(u) && MatchesTail(t)
    ensures MatchesTail(u + t)
    decreases |u|
  {
    if u != [] {
      assert u[0] in u;
      assert Lowers(u[1..]) by {
        forall ch | ch in u[1..] ensures IsLower(ch) { assert ch in u; }
      }
      LowersThenTail(u[1..], t);
      assert (u + t)[1..] == u[1..] + t;
    } else {
      assert u + t == t;
    }
  }

  /** A string in the pattern's language is a non-empty list of words joined by '-'. */
  lemma {:induction false} WordsMatch(parts: seq<string>)
    requires |parts| >= 1
    requires forall p :: p in parts ==> IsWord(p)
    ensures MatchesPattern(Join(parts))
    decreases |parts|
  {
    var w := parts[0];
    assert w in parts;
    assert w[0] in w;
    assert Lowers(w[1..]) by {
      forall ch | ch in w[1..] ensures IsLower(ch) { assert ch in w; }
    }
    if |parts| == 1 {
      LowersThenTail(w[1..], []);
      assert w[1..] + [] == w[1..];
    } else {
      var rest := Join(parts[1..]);
      WordsMatch(parts[1..]);
      var t := "-" + rest;
      assert t[1] == rest[0];
      assert t[2..] == rest[1..];
      assert MatchesTail(t);
      LowersThenTail(w[1..], t);
      assert Join(parts) == w + "-" + rest;
      assert Join(parts)[1..] == w[1..] + t;
    }
  }

  /** The pattern accepts exactly the strings whose '-'-separated pieces are
      all non-empty runs of a-z. */
  lemma ValidIffWords(s: string)
    ensures MatchesPattern(s) <==> forall p :: p in Split(s) ==> IsWord(p)
  {
    JoinSplit(s);
    if MatchesPattern(s) {
      TailPieces(s[1..]);
      var rest := Split(s[1..]);
      assert Split(s) == [[s[0]] + rest[0]] + rest[1..];
      forall p | p in Split(s) ensures IsWord(p) {
        var j :| 0 <= j < |Split(s)| && Split(s)[j] == p;
        if j == 0 {
          assert p == [s[0]] + rest[0];
        } else {
          assert p == rest[j];
        }
      }
    }
    if forall p :: p in Split(s) ==> IsWord(p) {
      WordsMatch(Split(s));
    }
  }

  /** An accepted string splits into words that join back to it: a name,
      predator list or prey list the user typed survives being stored. */
  lemma ValidSplitsIntoWords(s: string)
    requires ValidStringLowercasedWithHyphens(s)
    ensures |Split(s)| >= 1 && NoHyphens(Split(s)) && Join(Split(s)) == s
    ensures forall p :: p in Split(s) ==> IsWord(p)
  {
    JoinSplit(s);
  }

  function ValidClass(s: string): (r: bool)
    ensures r <==> exists c :: ClassTag(c) == s
  {
    var r := s in ["reptile", "mammal", "fish", "bird", "arthropod", "amphibian"];
    assert r ==> s in {ClassTag(Reptile), ClassTag(Mammal), ClassTag(Fish),
                       ClassTag(Bird), ClassTag(Arthropod), ClassTag(Amphibian)};
    r
  }

  function ValidAnimalName(s: string): (r: bool)
    ensures r <==> forall p :: p in Split(s) ==> IsWord(p)
  {
    ValidStringLowercasedWithHyphens(s)
  }

  function ValidPredators(s: string): (r: bool)
    ensures r <==> forall p :: p in Split(s) ==> IsWord(p)
  {
    ValidStringLowercasedWithHyphens(s)
  }

  function ValidPreys(s: string): (r: bool)
    ensures r <==> forall p :: p in Split(s) ==> IsWord(p)
  {
    ValidStringLowercasedWithHyphens(s)
  }

  function AnyInputIsValid(s: string): (r: bool)
    ensures r
  {
    true
  }

  /** The sex prompt takes a single letter, not the stored tag. */
  function ValidSex(s: string): (r: bool)
    ensures r <==> |s| == 1 && (s[0] == 'm' || s[0] == 'f')
  {
    assert |s| == 1 ==> s == [s[0]];
    s in ["m", "f"]
  }

  /** The accepted examples of the validators' test. */
  lemma AcceptedPair()
    ensures ValidPredators("shark-jelly")
  {
    WordsMatch(["shark", "jelly"]);
    assert Join(["shark", "jelly"]) == "shark-jelly";
  }

  lemma AcceptedSingle()
    ensures ValidPredators("rat")
  {
    WordsMatch(["rat"]);
  }

  lemma AcceptedTriple()
    ensures ValidPredators("elephant-lion-zebra")
  {
    WordsMatch(["elephant", "lion", "zebra"]);
    assert Join(["elephant", "lion", "zebra"]) == "elephant-lion-zebra";
  }

  /** A leading or lone hyphen and the empty string are refused. */
  lemma RejectedExamples()
    ensures !ValidPredators("-shark") && !ValidPredators("-lion-shark")
    ensures !ValidPredators("") && !ValidPredators("-")
  {
  }

  /** A trailing hyphen is refused. */
  lemma RejectedTrailingHyphen()
    ensures !ValidPredators("shark-") && !ValidPredators("shark-lion-")
  {
    if MatchesPattern("shark-") { TailChars("shark-"[1..]); }
    if MatchesPattern("shark-lion-") { TailChars("shark-lion-"[1..]); }
  }

  /** A digit is refused. */
  lemma RejectedDigit()
    ensures !ValidPredators("lion8-shark")
  {
  }

  lemma ClassAndSexExamples()
    ensures !ValidClass("reptil") && !ValidClass("mammals") && !ValidClass("fishes")
    ensures !ValidClass("birds") && !ValidClass("arthropods") && !ValidClass("amphibians")
    ensures ValidSex("m") && ValidSex("f") && !ValidSex("male") && !ValidSex("female")
  {
  }
}
