/**
 The filter settings and the decision which anagram groups are printed
 (anagram.py:127-133, 190-201, 213-217), and the whole pipeline from the
 chosen word lists to the printed groups.
 */
module Selection {
  import opened Signature
  import opened CharFilter
  import opened Ordering
  import opened Grouping
  import Corpus

  /** The settings as option parsing leaves them (`-m`, `-M`, `-l`, `-I`, `-x`). */
  datatype Options = Options(qtyMin: int, qtyMax: int, filterLength: int, inclChars: string, exclChars: string)

  /** The settings when no option is given: at least two words per group, at most 100, any length, `_` forbidden. */
  const Defaults: Options := Options(2, 100, 0, "", "_")

  /** The settings in force once the word arguments are taken into account. */
  datatype Criteria = Criteria(target: string, qtyMin: int, qtyMax: int, filterLength: int, inclChars: string, exclChars: string)

  /** The non-option arguments joined without separator (anagram.py:190-191). */
  function Concat(args: seq<string>): string
  {
    if args == [] then [] else Concat(args[..|args| - 1]) + args[|args| - 1]
  }

  /**
   The minimum after anagram.py:193-194: it drops from 2 to 1 when word
   arguments were given, tested on the raw joined arguments.
   */
  function AdjustedMin(wordArgs: string, qtyMin: int): (m: int)
    ensures m == 1 <==> qtyMin == 1 || (wordArgs != [] && qtyMin == 2)
    ensures m != 1 ==> m == qtyMin
  {
    if |wordArgs| != 0 && qtyMin == 2 then 1 else qtyMin
  }

  /** The criteria the filter loop sees. */
  function MakeCriteria(opts: Options, args: seq<string>): Criteria
  {
    var wordArgs := Concat(args);
    Criteria(Normalize(wordArgs), AdjustedMin(wordArgs, opts.qtyMin),
             opts.qtyMax, opts.filterLength, opts.inclChars, opts.exclChars)
  }

  /** anagram.py:190-201: join the word arguments, adjust the minimum, normalise the target. */
  method BuildCriteria(opts: Options, args: seq<string>) returns (c: Criteria)
    ensures c == MakeCriteria(opts, args)
  {
    var wordArgs := "";
    for k := 0 to |args|
      invariant wordArgs == Concat(args[..k])
    {
      assert args[..k + 1][..k] == args[..k];
      wordArgs := wordArgs + args[k];
    }
    assert args[..|args|] == args;
    var qtyMin := opts.qtyMin;
    if |wordArgs| != 0 && qtyMin == 2 {
      qtyMin := 1;
    }
    c := Criteria(Normalize(wordArgs), qtyMin, opts.qtyMax, opts.filterLength, opts.inclChars, opts.exclChars);
  }

  /** The condition of anagram.py:214-217 for the group `group` under signature `sig`. */
  predicate Emit(sig: string, group: seq<string>, c: Criteria)
  {
    && (|c.target| == 0 || sig == c.target)
    && |group| >= c.qtyMin && |group| <= c.qtyMax
    && (c.filterLength == 0 || c.filterLength == |sig|)
    && Incl(sig, c.inclChars)
    && Excl(sig, c.exclChars)
  }

  /**
   The loop of anagram.py:213-217: the groups it prints, each in full.
   The order in which they are printed is not modelled.
   */
  method SelectGroups(anagrams: map<string, seq<string>>, c: Criteria) returns (emitted: map<string, seq<string>>)
    ensures forall s :: s in emitted <==> s in anagrams && Emit(s, anagrams[s], c)
    ensures forall s :: s in emitted ==> emitted[s] == anagrams[s]
  {
    emitted := map[];
    var pending := anagrams.Keys;
    while pending != {}
      invariant pending <= anagrams.Keys
      invariant forall s :: s in emitted <==> s in anagrams && s !in pending && Emit(s, anagrams[s], c)
      invariant forall s :: s in emitted ==> emitted[s] == anagrams[s]
      decreases pending
    {
      var signature :| signature in pending;
      var group := anagrams[signature];
      var hasAll := InclScan(signature, c.inclChars);
      var hasNone := ExclScan(signature, c.exclChars);
      if && (|c.target| == 0 || signature == c.target)
         && |group| >= c.qtyMin && |group| <= c.qtyMax
         && (c.filterLength == 0 || c.filterLength == |signature|)
         && hasAll && hasNone
      {
        emitted := emitted[signature := group];
      }
      pending := pending - {signature};
    }
  }

  /**
   The whole run: merge the chosen lists, group the words by signature,
   build the criteria from the options and word arguments, and keep the
   groups that pass.
   */
  method Run(dictionaryList: seq<seq<string>>, opts: Options, args: seq<string>)
    returns (emitted: map<string, seq<string>>)
    ensures var corpus := Corpus.PrepareCorpus(dictionaryList);
      forall s :: s in emitted <==>
        (exists w :: w in corpus && Normalize(w) == s) && Emit(s, GroupOf(corpus, s), MakeCriteria(opts, args))
    ensures var corpus := Corpus.PrepareCorpus(dictionaryList);
      forall s :: s in emitted ==> emitted[s] == GroupOf(corpus, s) && StrictlyAscending(emitted[s])
    ensures forall s, w :: s in emitted && w in emitted[s] ==> Normalize(w) == s && Corpus.Listed(dictionaryList, w)
    ensures Normalize(Concat(args)) != [] ==> forall s :: s in emitted ==> s == Normalize(Concat(args))
  {
    var corpus := Corpus.PrepareCorpus(dictionaryList);
    Corpus.PrepareCorpusSpec(dictionaryList);
    var anagrams := Group(corpus);
    var criteria := BuildCriteria(opts, args);
    emitted := SelectGroups(anagrams, criteria);
    forall s | s in emitted
      ensures StrictlyAscending(emitted[s])
      ensures forall w :: w in emitted[s] ==> Normalize(w) == s && Corpus.Listed(dictionaryList, w)
    {
      GroupAscending(corpus, s);
      forall w | w in emitted[s]
        ensures Normalize(w) == s && Corpus.Listed(dictionaryList, w)
      {
        GroupMembers(corpus, s, w);
      }
    }
  }

  // ---------------------------------------------------------------------------
  // Properties of the criteria and of the decision

  /**
   With the default minimum, a group needs two words without word arguments
   and one with them, whatever the other settings are.
   */
  lemma DefaultMinimum(opts: Options, args: seq<string>)
    requires opts.qtyMin == Defaults.qtyMin
    ensures Concat(args) == [] ==> MakeCriteria(opts, args).qtyMin == 2
    ensures Concat(args) != [] ==> MakeCriteria(opts, args).qtyMin == 1
  {
  }

  /** An explicit `-m 2` is lowered as well when word arguments are given. */
  lemma ExplicitTwoLowered(opts: Options, args: seq<string>)
    requires Concat(args) != []
    ensures MakeCriteria(opts.(qtyMin := 2), args).qtyMin == 1
  {
  }

  /** Joined arguments are empty exactly when every argument is. */
  lemma {:induction false} ConcatEmpty(args: seq<string>)
    ensures Concat(args) == [] <==> forall k :: 0 <= k < |args| ==> args[k] == []
  {
    if args != [] {
      ConcatEmpty(args[..|args| - 1]);
      var init := args[..|args| - 1];
      assert forall k :: 0 <= k < |init| ==> init[k] == args[k];
    }
  }

  /**
   An argument made only of separators still lowers the minimum, yet
   normalises to the empty target and so constrains no signature.
   */
  lemma PunctuationTarget(opts: Options, arg: string)
    requires arg != [] && forall c :: c in arg ==> c in Punctuation
    ensures MakeCriteria(opts, [arg]).target == []
    ensures opts.qtyMin == 2 ==> MakeCriteria(opts, [arg]).qtyMin == 1
  {
    assert Concat([arg]) == arg by {
      assert [arg][..0] == [];
    }
    NormalizeSpec(arg);
    AllPunctuation(arg);
  }

  lemma {:induction false} AllPunctuation(w: string)
    requires forall c :: c in w ==> c in Punctuation
    ensures PunctuationCount(w) == |w|
  {
    if w != [] {
      assert w[0] in w;
      assert forall c :: c in w[1..] ==> c in w;
      AllPunctuation(w[1..]);
    }
  }

  /** With a non-empty target at most one group passes: the one under the target signature. */
  lemma TargetSelectsOne(c: Criteria, s1: string, g1: seq<string>, s2: string, g2: seq<string>)
    requires c.target != []
    requires Emit(s1, g1, c) && Emit(s2, g2, c)
    ensures s1 == s2 == c.target
  {
  }

  /** Both count bounds are inclusive. */
  lemma CountBounds(sig: string, group: seq<string>, c: Criteria)
    requires (|c.target| == 0 || sig == c.target) && (c.filterLength == 0 || c.filterLength == |sig|)
    requires Incl(sig, c.inclChars) && Excl(sig, c.exclChars)
    ensures Emit(sig, group, c) <==> c.qtyMin <= |group| <= c.qtyMax
  {
  }
}
