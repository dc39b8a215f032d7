/**
 The partition of the word list by signature (anagram.py:205-211): each
 word is appended to the list kept under its signature, the list created on
 the signature's first word.
 */
module Grouping {
  import opened Signature
  import opened Ordering

  /** The words of `words` with signature `sig`, in input order. */
  function GroupOf(words: seq<string>, sig: string): seq<string>
  {
    if words == [] then []
    else
      var last := words[|words| - 1];
      GroupOf(words[..|words| - 1], sig) + (if Normalize(last) == sig then [last] else [])
  }

  lemma GroupOfSnoc(words: seq<string>, w: string, sig: string)
    ensures GroupOf(words + [w], sig) == GroupOf(words, sig) + (if Normalize(w) == sig then [w] else [])
  {
    assert (words + [w])[..|words|] == words;
  }

  /** The loop of anagram.py:205-211 over the prepared word list. */
  method Group(words: seq<string>) returns (anagrams: map<string, seq<string>>)
    ensures forall sig :: sig in anagrams <==> exists w :: w in words && Normalize(w) == sig
    ensures forall sig :: sig in anagrams ==> anagrams[sig] == GroupOf(words, sig)
  {
    anagrams := map[];
    for i := 0 to |words|
      invariant GroupsOf(anagrams, words[..i])
    {
      assert words[..i + 1] == words[..i] + [words[i]];
      var word := words[i];
      var signature := Normalize(word);
      var before := anagrams;
      if signature in anagrams {
        anagrams := anagrams[signature := anagrams[signature] + [word]];
      } else {
        anagrams := anagrams[signature := [word]];
      }
      GroupStep(words[..i], word, signature, before, anagrams);
    }
    assert words[..|words|] == words;
    forall sig
      ensures GroupOf(words, sig) != [] <==> exists w :: w in words && Normalize(w) == sig
    {
      GroupNonEmpty(words, sig);
    }
  }

  /** `anagrams` holds a key for each signature with a non-empty group in `words`, mapped to that group. */
  ghost predicate GroupsOf(anagrams: map<string, seq<string>>, words: seq<string>)
  {
    && (forall sig :: sig in anagrams <==> GroupOf(words, sig) != [])
    && (forall sig :: sig in anagrams ==> anagrams[sig] == GroupOf(words, sig))
  }

  /** One pass of the loop body keeps the map equal to the groups of the words seen so far. */
  lemma GroupStep(seen: seq<string>, word: string, signature: string,
                  before: map<string, seq<string>>, after: map<string, seq<string>>)
    requires GroupsOf(before, seen)
    requires signature == Normalize(word)
    requires after == if signature in before then before[signature := before[signature] + [word]]
                      else before[signature := [word]]
    ensures GroupsOf(after, seen + [word])
  {
    forall sig
      ensures sig in after <==> GroupOf(seen + [word], sig) != []
      ensures sig in after ==> after[sig] == GroupOf(seen + [word], sig)
    {
      GroupOfSnoc(seen, word, sig);
    }
  }

  /** A group holds exactly the words of the list with that signature. */
  lemma {:induction false} GroupMembers(words: seq<string>, sig: string, x: string)
    ensures x in GroupOf(words, sig) <==> x in words && Normalize(x) == sig
  {
    if words != [] {
      var init, last := words[..|words| - 1], words[|words| - 1];
      GroupMembers(init, sig, x);
      assert words == init + [last];
      GroupOfSnoc(init, last, sig);
      assert x in words <==> x in init || x == last;
    }
  }

  lemma GroupNonEmpty(words: seq<string>, sig: string)
    ensures GroupOf(words, sig) != [] <==> exists w :: w in words && Normalize(w) == sig
  {
    if GroupOf(words, sig) != [] {
      GroupMembers(words, sig, GroupOf(words, sig)[0]);
    }
    if exists w :: w in words && Normalize(w) == sig {
      var w :| w in words && Normalize(w) == sig;
      GroupMembers(words, sig, w);
    }
  }

  /** Every word of the list lies in the group of its own signature and in no other. */
  lemma WordInOneGroup(words: seq<string>, w: string, sig: string)
    requires w in words
    ensures w in GroupOf(words, Normalize(w))
    ensures w in GroupOf(words, sig) ==> sig == Normalize(w)
  {
    GroupMembers(words, Normalize(w), w);
    GroupMembers(words, sig, w);
  }

  /** A group keeps input order, so a group of a strictly ascending list is strictly ascending. */
  lemma {:induction false} GroupAscending(words: seq<string>, sig: string)
    requires StrictlyAscending(words)
    ensures StrictlyAscending(GroupOf(words, sig))
  {
    if words != [] {
      var init, last := words[..|words| - 1], words[|words| - 1];
      assert StrictlyAscending(init);
      GroupAscending(init, sig);
      var g := GroupOf(init, sig);
      forall k | 0 <= k < |g|
        ensures Below(g[k], last)
      {
        GroupMembers(init, sig, g[k]);
        var j :| 0 <= j < |init| && init[j] == g[k];
      }
      AppendAscending(g, last);
    }
  }

  lemma AppendAscending(g: seq<string>, x: string)
    requires StrictlyAscending(g)
    requires forall k :: 0 <= k < |g| ==> Below(g[k], x)
    ensures StrictlyAscending(g + [x])
  {
  }

  // ---------------------------------------------------------------------------
  // Group sizes

  predicate Distinct(keys: seq<string>)
  {
    forall i, j :: 0 <= i < j < |keys| ==> keys[i] != keys[j]
  }

  /** The total size of the groups listed in `keys`. */
  function SizeSum(anagrams: map<string, seq<string>>, keys: seq<string>): nat
    requires forall k :: k in keys ==> k in anagrams
  {
    if keys == [] then 0 else |anagrams[keys[0]]| + SizeSum(anagrams, keys[1..])
  }

  function GroupSizeSum(words: seq<string>, keys: seq<string>): nat
  {
    if keys == [] then 0 else |GroupOf(words, keys[0])| + GroupSizeSum(words, keys[1..])
  }

  function Occurrences(keys: seq<string>, s: string): nat
  {
    if keys == [] then 0 else (if keys[0] == s then 1 else 0) + Occurrences(keys[1..], s)
  }

  lemma {:induction false} OccursOnce(keys: seq<string>, s: string)
    requires Distinct(keys) && s in keys
    ensures Occurrences(keys, s) == 1
  {
    if keys[0] == s {
      OccursNot(keys[1..], s);
    } else {
      OccursOnce(keys[1..], s);
    }
  }

  lemma {:induction false} OccursNot(keys: seq<string>, s: string)
    requires s !in keys
    ensures Occurrences(keys, s) == 0
  {
    if keys != [] {
      OccursNot(keys[1..], s);
    }
  }

  lemma {:induction false} GroupSizeSumSnoc(words: seq<string>, w: string, keys: seq<string>)
    ensures GroupSizeSum(words + [w], keys) == GroupSizeSum(words, keys) + Occurrences(keys, Normalize(w))
  {
    assert (words + [w])[..|words + [w]| - 1] == words;
    if keys != [] {
      GroupSizeSumSnoc(words, w, keys[1..]);
    }
  }

  lemma {:induction false} GroupSizeSumTotal(words: seq<string>, keys: seq<string>)
    requires Distinct(keys)
    requires forall w :: w in words ==> Normalize(w) in keys
    ensures GroupSizeSum(words, keys) == |words|
  {
    if words == [] {
      GroupSizeSumEmpty(keys);
    } else {
      var init, last := words[..|words| - 1], words[|words| - 1];
      assert words == init + [last];
      GroupSizeSumTotal(init, keys);
      GroupSizeSumSnoc(init, last, keys);
      OccursOnce(keys, Normalize(last));
    }
  }

  lemma {:induction false} GroupSizeSumEmpty(keys: seq<string>)
    ensures GroupSizeSum([], keys) == 0
  {
    if keys != [] {
      GroupSizeSumEmpty(keys[1..]);
    }
  }

  lemma {:induction false} SizeSumIsGroupSizeSum(words: seq<string>, anagrams: map<string, seq<string>>, keys: seq<string>)
    requires forall k :: k in keys ==> k in anagrams && anagrams[k] == GroupOf(words, k)
    ensures SizeSum(anagrams, keys) == GroupSizeSum(words, keys)
  {
    if keys != [] {
      SizeSumIsGroupSizeSum(words, anagrams, keys[1..]);
    }
  }

  /**
   The groups partition the word list: listing each signature of the map
   once, the group sizes add up to the length of the list.
   */
  lemma PartitionSizes(words: seq<string>, anagrams: map<string, seq<string>>, keys: seq<string>)
    requires forall sig :: sig in anagrams <==> exists w :: w in words && Normalize(w) == sig
    requires forall sig :: sig in anagrams ==> anagrams[sig] == GroupOf(words, sig)
    requires Distinct(keys) && forall k :: k in keys <==> k in anagrams
    ensures SizeSum(anagrams, keys) == |words|
  {
    SizeSumIsGroupSizeSum(words, anagrams, keys);
    GroupSizeSumTotal(words, keys);
  }
}
