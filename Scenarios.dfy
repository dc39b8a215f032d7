/**
 The worked example of a word list holding "pot" and the four anagrams
 "pots", "spot", "stop", "tops": the signatures of its words, and which of
 its two groups each choice of settings prints.
 */
module Scenarios {
  import opened Signature
  import opened Selection

  lemma PotSignature(w: string)
    requires w == "pot"
    ensures Normalize(w) == "opt"
  {
    assert Sorted("opt");
    assert forall x :: x in w ==> 'a' <= x <= 'z';
    assert multiset(w) == multiset("opt");
    NormalizePlain(w, "opt");
  }

  /** The four anagrams share the signature "opst", so they form one group. */
  lemma StopSignature(w: string)
    requires w == "pots" || w == "spot" || w == "stop" || w == "tops"
    ensures Normalize(w) == "opst"
  {
    assert Sorted("opst");
    StopLetters(w);
    StopPermutation(w);
    NormalizePlain(w, "opst");
  }

  lemma StopLetters(w: string)
    requires w == "pots" || w == "spot" || w == "stop" || w == "tops"
    ensures forall x :: x in w ==> 'a' <= x <= 'z'
  {
  }

  lemma StopPermutation(w: string)
    requires w == "pots" || w == "spot" || w == "stop" || w == "tops"
    ensures multiset(w) == multiset("opst")
  {
    if w == "pots" {
      PotsLetters(w);
    } else if w == "spot" {
      SpotLetters(w);
    } else if w == "stop" {
      StopLetterCount(w);
    } else {
      TopsLetters(w);
    }
  }

  lemma PotsLetters(w: string)
    requires w == "pots"
    ensures multiset(w) == multiset("opst")
  {
  }

  lemma SpotLetters(w: string)
    requires w == "spot"
    ensures multiset(w) == multiset("opst")
  {
  }

  lemma StopLetterCount(w: string)
    requires w == "stop"
    ensures multiset(w) == multiset("opst")
  {
  }

  lemma TopsLetters(w: string)
    requires w == "tops"
    ensures multiset(w) == multiset("opst")
  {
  }

  /** Without a word argument the four-word group is printed and "pot" alone is not. */
  lemma ScenarioNoTarget(four: seq<string>, one: seq<string>)
    requires |four| == 4 && |one| == 1
    ensures Emit("opst", four, MakeCriteria(Defaults, []))
    ensures !Emit("opt", one, MakeCriteria(Defaults, []))
  {
    NormalizeEmpty();
  }

  /** With the argument "pot" the minimum drops to one and only the group under "opt" is printed. */
  lemma ScenarioTargetPot(four: seq<string>, one: seq<string>, arg: string)
    requires |four| == 4 && |one| == 1 && arg == "pot"
    ensures MakeCriteria(Defaults, [arg]).target == "opt"
    ensures MakeCriteria(Defaults, [arg]).qtyMin == 1
    ensures Emit("opt", one, MakeCriteria(Defaults, [arg]))
    ensures !Emit("opst", four, MakeCriteria(Defaults, [arg]))
  {
    PotCriteria(arg);
  }

  lemma PotCriteria(arg: string)
    requires arg == "pot"
    ensures MakeCriteria(Defaults, [arg]) == Criteria("opt", 1, 100, 0, "", "_")
  {
    assert Concat([arg]) == arg by {
      assert [arg][..0] == [];
    }
    PotSignature(arg);
  }

  /** With `-m 1 -l 3` only the three-letter signature passes the length test. */
  lemma ScenarioLength(four: seq<string>, one: seq<string>)
    requires |four| == 4 && |one| == 1
    ensures Emit("opt", one, MakeCriteria(Defaults.(qtyMin := 1, filterLength := 3), []))
    ensures !Emit("opst", four, MakeCriteria(Defaults.(qtyMin := 1, filterLength := 3), []))
  {
    NormalizeEmpty();
  }

  /** A required character missing from the signature excludes a group that passes every other test. */
  lemma ScenarioChars(four: seq<string>, one: seq<string>)
    requires |four| == 4 && |one| == 1
    ensures Emit("opst", four, MakeCriteria(Defaults.(inclChars := "p", exclChars := "z"), []))
    ensures !Emit("opt", one, MakeCriteria(Defaults.(qtyMin := 1, inclChars := "s", exclChars := "z"), []))
  {
    NormalizeEmpty();
    assert 's' in "s";
  }
}
