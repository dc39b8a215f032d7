/**
 The character signature of a word (anagram.py, `normalize` and the patterns
 it uses). A signature is the word with the separator characters removed, the
 accented letters of seven fixed tables folded to their base letter, the
 result lower-cased and its characters sorted. Two words are anagrams of each
 other exactly when their signatures are equal.
 */
module Signature {

  /** The class deleted by pattern `intpun`: apostrophe, double quote, space, full stop, ampersand, hyphen. */
  const Punctuation: set<char> := {'\'', '"', ' ', '.', '&', '-'}

  /** The seven fold tables, exactly as the character classes list them. */
  const ATable: set<char> := {'á', 'à', 'ä', 'â', 'å', 'Á', 'À', 'Ä', 'Â'}
  const ETable: set<char> := {'é', 'è', 'ë', 'ê', 'É', 'È', 'Ë', 'Ê'}
  const ITable: set<char> := {'ï', 'í', 'ì', 'Ï', 'Í', 'Ì'}
  const OTable: set<char> := {'ó', 'ò', 'ö', 'ô', 'ø', 'Ó', 'Ò', 'Ö', 'Ô'}
  const UTable: set<char> := {'ú', 'ù', 'ü', 'Ú', 'Ù', 'Ü'}
  const NTable: set<char> := {'ñ', 'Ñ'}
  const CTable: set<char> := {'ç', 'Ç'}

  /** Membership in any of the seven fold tables. */
  predicate InFoldTables(c: char)
  {
    c in ATable || c in ETable || c in ITable || c in OTable || c in UTable || c in NTable || c in CTable
  }

  /** `re.sub` of a one-character class by the empty string: drop every member of `table`. */
  function Delete(table: set<char>, s: string): string
  {
    if s == [] then [] else (if s[0] in table then [] else [s[0]]) + Delete(table, s[1..])
  }

  /** Deleting keeps exactly the characters outside the class. */
  lemma {:induction false} DeleteMembers(table: set<char>, s: string, x: char)
    ensures x in Delete(table, s) <==> x in s && x !in table
  {
    if s != [] {
      DeleteMembers(table, s[1..], x);
      assert s == [s[0]] + s[1..];
    }
  }

  /** `re.sub` of a one-character class by one letter: replace every member of `table` by `base`. */
  function Substitute(table: set<char>, base: char, s: string): string
  {
    seq(|s|, i requires 0 <= i < |s| => if s[i] in table then base else s[i])
  }

  /**
   `str.lower` on one character, over the alphabet the word lists use:
   ASCII A-Z and the Latin-1 capitals U+00C0..U+00DE except the
   multiplication sign map to the character 32 code points higher.
   */
  function LowerChar(c: char): char
  {
    if 'A' <= c <= 'Z' || ('À' <= c <= 'Þ' && c != '×') then (c as int + 32) as char else c
  }

  function Lower(s: string): string
  {
    seq(|s|, i requires 0 <= i < |s| => LowerChar(s[i]))
  }

  predicate Sorted(s: string)
  {
    forall i, j :: 0 <= i < j < |s| ==> s[i] <= s[j]
  }

  function InsertChar(c: char, s: string): (r: string)
    requires Sorted(s)
    ensures Sorted(r)
    ensures multiset(r) == multiset(s) + multiset{c}
  {
    if s == [] || c <= s[0] then
      ConsSorted(c, s);
      [c] + s
    else
      var t := InsertChar(c, s[1..]);
      LowerBoundKept(s[0], s[1..], c, t);
      ConsSorted(s[0], t);
      assert s == [s[0]] + s[1..];
      [s[0]] + t
  }

  /** Putting a character no greater than the head in front of a sorted string keeps it sorted. */
  lemma ConsSorted(c: char, s: string)
    requires Sorted(s)
    requires s == [] || c <= s[0]
    ensures Sorted([c] + s)
  {
  }

  lemma LowerBoundKept(lo: char, s: string, c: char, t: string)
    requires forall k :: 0 <= k < |s| ==> lo <= s[k]
    requires lo <= c
    requires multiset(t) == multiset(s) + multiset{c}
    ensures forall k :: 0 <= k < |t| ==> lo <= t[k]
  {
    forall k | 0 <= k < |t|
      ensures lo <= t[k]
    {
      assert t[k] in multiset(t);
      if t[k] != c {
        assert t[k] in multiset(s);
        var j :| 0 <= j < |s| && s[j] == t[k];
      }
    }
  }

  /** `sorted` on the characters of a string: ascending by code point. */
  function Sort(s: string): (r: string)
    ensures Sorted(r)
    ensures multiset(r) == multiset(s)
  {
    if s == [] then [] else
      assert s == [s[0]] + s[1..];
      InsertChar(s[0], Sort(s[1..]))
  }

  /** The seven substitutions of anagram.py:67-73, innermost (`c_ced`) first. */
  function Fold(s: string): string
  {
    Substitute(ATable, 'a',
    Substitute(ETable, 'e',
    Substitute(ITable, 'i',
    Substitute(OTable, 'o',
    Substitute(UTable, 'u',
    Substitute(NTable, 'n',
    Substitute(CTable, 'c', s)))))))
  }

  /** The signature of a word: separators deleted (anagram.py:74), folded, then lower-cased and sorted (anagram.py:75). */
  function Normalize(w: string): (sig: string)
  {
    Sort(Lower(Fold(Delete(Punctuation, w))))
  }

  // ---------------------------------------------------------------------------
  // An independent, character-by-character reference definition

  /** The base letter one table character folds to; any other character is kept. */
  function FoldChar(c: char): char
  {
    if c in ATable then 'a'
    else if c in ETable then 'e'
    else if c in ITable then 'i'
    else if c in OTable then 'o'
    else if c in UTable then 'u'
    else if c in NTable then 'n'
    else if c in CTable then 'c'
    else c
  }

  /** What one kept character of a word contributes to its signature. */
  function Key(c: char): char
  {
    LowerChar(FoldChar(c))
  }

  /** The signature's characters in word order: punctuation dropped, every other character keyed. */
  function Canon(w: string): string
  {
    if w == [] then [] else (if w[0] in Punctuation then [] else [Key(w[0])]) + Canon(w[1..])
  }

  function PunctuationCount(w: string): nat
  {
    if w == [] then 0 else (if w[0] in Punctuation then 1 else 0) + PunctuationCount(w[1..])
  }

  /** The substitution chain before sorting is the reference definition, character for character. */
  lemma {:induction false} ChainIsCanon(w: string)
    ensures Lower(Fold(Delete(Punctuation, w))) == Canon(w)
  {
    var d := Delete(Punctuation, w);
    DeleteIsCanonSkeleton(w);
    FoldLength(d);
    forall i | 0 <= i < |d|
      ensures Lower(Fold(d))[i] == Canon(w)[i]
    {
      FoldAt(d, i);
      CanonAt(w, i);
    }
  }

  lemma FoldLength(s: string)
    ensures |Fold(s)| == |s|
  {
  }

  /** Each position of the folded string is the fold of the character there. */
  lemma FoldAt(s: string, i: int)
    requires 0 <= i < |s|
    ensures |Fold(s)| == |s|
    ensures Fold(s)[i] == FoldChar(s[i])
  {
  }

  /** The deleted string and the reference signature line up position by position. */
  lemma {:induction false} DeleteIsCanonSkeleton(w: string)
    ensures |Delete(Punctuation, w)| == |Canon(w)|
    ensures forall i :: 0 <= i < |Canon(w)| ==> Canon(w)[i] == Key(Delete(Punctuation, w)[i])
  {
    if w != [] {
      DeleteIsCanonSkeleton(w[1..]);
      var d, c := Delete(Punctuation, w[1..]), Canon(w[1..]);
      if w[0] in Punctuation {
        assert Delete(Punctuation, w) == d && Canon(w) == c;
      } else {
        assert Delete(Punctuation, w) == [w[0]] + d && Canon(w) == [Key(w[0])] + c;
        forall i | 1 <= i < |Canon(w)|
          ensures Canon(w)[i] == Key(Delete(Punctuation, w)[i])
        {
          assert Canon(w)[i] == c[i - 1] && Delete(Punctuation, w)[i] == d[i - 1];
        }
      }
    }
  }

  lemma CanonAt(w: string, i: int)
    requires 0 <= i < |Canon(w)|
    ensures |Delete(Punctuation, w)| == |Canon(w)|
    ensures Canon(w)[i] == Key(Delete(Punctuation, w)[i])
  {
    DeleteIsCanonSkeleton(w);
  }

  // ---------------------------------------------------------------------------
  // The signature: sorted, a permutation of the reference, and its length

  /** The signature is the sorted permutation of the kept, folded, lower-cased characters. */
  lemma NormalizeSpec(w: string)
    ensures Sorted(Normalize(w))
    ensures multiset(Normalize(w)) == multiset(Canon(w))
    ensures |Normalize(w)| == |w| - PunctuationCount(w)
  {
    ChainIsCanon(w);
    CanonLength(w);
    assert |multiset(Normalize(w))| == |multiset(Canon(w))|;
  }

  lemma {:induction false} CanonLength(w: string)
    ensures |Canon(w)| == |w| - PunctuationCount(w)
  {
    if w != [] {
      CanonLength(w[1..]);
    }
  }

  /** A sorted string is determined by its multiset of characters. */
  lemma {:induction false} SortedUnique(a: string, b: string)
    requires Sorted(a) && Sorted(b)
    requires multiset(a) == multiset(b)
    ensures a == b
  {
    if a != [] {
      SortedHeads(a, b);
      SortedTails(a, b);
      SortedUnique(a[1..], b[1..]);
      assert a == [a[0]] + a[1..];
      assert b == [b[0]] + b[1..];
    } else {
      assert |multiset(b)| == 0;
    }
  }

  /** Two sorted strings with the same characters start with the same character. */
  lemma SortedHeads(a: string, b: string)
    requires Sorted(a) && Sorted(b)
    requires multiset(a) == multiset(b) && a != []
    ensures b != [] && a[0] == b[0]
  {
    assert a[0] in multiset(b);
    var j :| 0 <= j < |b| && b[j] == a[0];
    assert b[0] in multiset(a);
    var k :| 0 <= k < |a| && a[k] == b[0];
  }

  lemma SortedTails(a: string, b: string)
    requires Sorted(a) && Sorted(b)
    requires multiset(a) == multiset(b) && a != [] && b != [] && a[0] == b[0]
    ensures Sorted(a[1..]) && Sorted(b[1..])
    ensures multiset(a[1..]) == multiset(b[1..])
  {
    assert a == [a[0]] + a[1..];
    assert b == [b[0]] + b[1..];
    assert multiset(a[1..]) == multiset(a) - multiset{a[0]};
    assert multiset(b[1..]) == multiset(b) - multiset{b[0]};
  }

  /** Sorting a string that is already sorted changes nothing. */
  lemma SortSorted(s: string)
    requires Sorted(s)
    ensures Sort(s) == s
  {
    SortedUnique(Sort(s), s);
  }

  /** Two words are anagrams (equal signatures) exactly when their keyed characters agree as multisets. */
  lemma AnagramIff(w1: string, w2: string)
    ensures Normalize(w1) == Normalize(w2) <==> multiset(Canon(w1)) == multiset(Canon(w2))
  {
    NormalizeSpec(w1);
    NormalizeSpec(w2);
    if multiset(Canon(w1)) == multiset(Canon(w2)) {
      SortedUnique(Normalize(w1), Normalize(w2));
    }
  }

  lemma {:induction false} CanonAppend(a: string, b: string)
    ensures Canon(a + b) == Canon(a) + Canon(b)
  {
    if a != [] {
      assert (a + b)[1..] == a[1..] + b;
      CanonAppend(a[1..], b);
    } else {
      assert a + b == b;
    }
  }

  /** The keyed characters of a word depend only on which characters it has, not on their order. */
  lemma {:induction false} CanonPermutation(w1: string, w2: string)
    requires multiset(w1) == multiset(w2)
    ensures multiset(Canon(w1)) == multiset(Canon(w2))
  {
    if w1 == [] {
      assert |multiset(w2)| == 0;
      assert w2 == [];
    } else {
      var c, r := w1[0], w1[1..];
      assert w1 == [c] + r;
      assert multiset(r) == multiset(w1) - multiset{c};
      var u, v := TakeOut(w2, c);
      CanonPermutation(r, u + v);
      CanonAppend([c], r);
      CanonMoveOut(u, c, v);
    }
  }

  /** Splits a string around one occurrence of `c`. */
  lemma TakeOut(w: string, c: char) returns (u: string, v: string)
    requires c in multiset(w)
    ensures w == u + [c] + v
    ensures multiset(u + v) == multiset(w) - multiset{c}
  {
    var k :| 0 <= k < |w| && w[k] == c;
    u, v := w[..k], w[k + 1..];
    assert w == u + [c] + v;
  }

  lemma CanonMoveOut(u: string, c: char, v: string)
    ensures multiset(Canon(u + [c] + v)) == multiset(Canon(u + v)) + multiset(Canon([c]))
  {
    CanonAppend(u + [c], v);
    CanonAppend(u, [c]);
    CanonAppend(u, v);
  }

  /** Reordering the characters of a word never changes its signature. */
  lemma NormalizePermutation(w1: string, w2: string)
    requires multiset(w1) == multiset(w2)
    ensures Normalize(w1) == Normalize(w2)
  {
    CanonPermutation(w1, w2);
    AnagramIff(w1, w2);
  }

  // ---------------------------------------------------------------------------
  // Which characters a signature can hold

  /**
   One kept character keys to a lower-case character that is no punctuation
   and no table letter, except that Å keys to å and Ø to ø: the tables miss
   those two capitals, and lower-casing them yields a table letter.
   */
  lemma KeyChar(c: char)
    requires c !in Punctuation
    ensures Key(c) !in Punctuation
    ensures LowerChar(Key(c)) == Key(c)
    ensures InFoldTables(Key(c)) ==> Key(c) == 'å' || Key(c) == 'ø'
    ensures Key(c) == 'å' <==> c == 'Å'
    ensures Key(c) == 'ø' <==> c == 'Ø'
  {
    FoldCharBase(c);
    if InFoldTables(c) {
      assert !InFoldTables('Å') && !InFoldTables('Ø');
    } else {
      LowerCharClean(c);
      LowerCharTable(c);
    }
  }

  /** Folding yields an ASCII base letter for a table character and keeps every other character. */
  lemma FoldCharBase(c: char)
    ensures InFoldTables(c) ==> 'a' <= FoldChar(c) <= 'z'
    ensures !InFoldTables(c) ==> FoldChar(c) == c
  {
  }

  lemma LowerCharClean(c: char)
    requires c !in Punctuation
    ensures LowerChar(c) !in Punctuation
    ensures LowerChar(LowerChar(c)) == LowerChar(c)
  {
  }

  /** Lower-casing lands in a fold table only from that table, or from Å or Ø. */
  lemma LowerCharInto(c: char)
    ensures LowerChar(c) in ATable ==> c in ATable || c == 'Å'
    ensures LowerChar(c) in ETable ==> c in ETable
    ensures LowerChar(c) in ITable ==> c in ITable
    ensures LowerChar(c) in OTable ==> c in OTable || c == 'Ø'
    ensures LowerChar(c) in UTable ==> c in UTable
    ensures LowerChar(c) in NTable ==> c in NTable
    ensures LowerChar(c) in CTable ==> c in CTable
    ensures LowerChar(c) == 'å' <==> c == 'Å' || c == 'å'
    ensures LowerChar(c) == 'ø' <==> c == 'Ø' || c == 'ø'
  {
  }

  lemma LowerCharTable(c: char)
    requires !InFoldTables(c)
    ensures InFoldTables(LowerChar(c)) ==> LowerChar(c) == 'å' || LowerChar(c) == 'ø'
    ensures LowerChar(c) == 'å' <==> c == 'Å'
    ensures LowerChar(c) == 'ø' <==> c == 'Ø'
  {
    LowerCharInto(c);
  }

  lemma {:induction false} CanonChars(w: string, x: char)
    requires x in Canon(w)
    ensures exists c :: c in w && c !in Punctuation && x == Key(c)
  {
    assert w != [];
    assert w == [w[0]] + w[1..];
    if w[0] !in Punctuation && x == Key(w[0]) {
      assert w[0] in w;
    } else {
      CanonChars(w[1..], x);
      var c :| c in w[1..] && c !in Punctuation && x == Key(c);
      assert c in w;
    }
  }

  /** Every character of a word's signature comes from a kept character of the word. */
  lemma SignatureChar(w: string, x: char)
    requires x in Normalize(w)
    ensures exists c :: c in w && c !in Punctuation && x == Key(c)
  {
    NormalizeSpec(w);
    assert x in multiset(Canon(w));
    CanonChars(w, x);
  }

  /**
   A signature holds no punctuation and no character that lower-casing would
   change; the only table letters it can hold are å and ø.
   */
  lemma NormalizeChars(w: string)
    ensures forall x :: x in Normalize(w) ==>
      x !in Punctuation && LowerChar(x) == x && (InFoldTables(x) ==> x == 'å' || x == 'ø')
  {
    forall x | x in Normalize(w)
      ensures x !in Punctuation && LowerChar(x) == x && (InFoldTables(x) ==> x == 'å' || x == 'ø')
    {
      SignatureChar(w, x);
      var c :| c in w && c !in Punctuation && x == Key(c);
      KeyChar(c);
    }
  }

  lemma {:induction false} CanonOfClean(s: string)
    requires forall x :: x in s ==> x !in Punctuation && LowerChar(x) == x && !InFoldTables(x)
    ensures Canon(s) == s
  {
    if s != [] {
      assert s[0] in s;
      assert forall x :: x in s[1..] ==> x in s;
      CanonOfClean(s[1..]);
      assert s == [s[0]] + s[1..];
    }
  }

  /** The empty word, and a word of separators only, has the empty signature. */
  lemma NormalizeEmpty()
    ensures Normalize("") == ""
  {
    NormalizeSpec("");
  }

  /** A word of plain lower-case ASCII letters normalises to its sorted letters. */
  lemma NormalizePlain(w: string, sig: string)
    requires forall x :: x in w ==> 'a' <= x <= 'z'
    requires Sorted(sig) && multiset(sig) == multiset(w)
    ensures Normalize(w) == sig
  {
    forall x | x in w
      ensures x !in Punctuation && LowerChar(x) == x && !InFoldTables(x)
    {
      PlainChar(x);
    }
    CanonOfClean(w);
    NormalizeSpec(w);
    SortedUnique(Normalize(w), sig);
  }

  lemma PlainChar(x: char)
    requires 'a' <= x <= 'z'
    ensures x !in Punctuation && LowerChar(x) == x && !InFoldTables(x)
  {
  }

  /**
   Normalising a signature once more gives it back exactly when it holds
   neither å nor ø; those two are folded on the second pass.
   */
  lemma NormalizeIdempotentIff(w: string)
    ensures Normalize(Normalize(w)) == Normalize(w) <==> 'å' !in Normalize(w) && 'ø' !in Normalize(w)
  {
    var s := Normalize(w);
    NormalizeSpec(w);
    NormalizeChars(w);
    if 'å' !in s && 'ø' !in s {
      NormalizeSpec(s);
      CanonOfClean(s);
      SortedUnique(Normalize(s), s);
    } else if 'å' in s {
      SecondPassFolds(s, 'å');
    } else {
      SecondPassFolds(s, 'ø');
    }
  }

  /** A lower-case string keeps no å or ø through normalisation: only Å and Ø key to them. */
  lemma SecondPassFolds(s: string, x: char)
    requires x == 'å' || x == 'ø'
    requires forall y :: y in s ==> LowerChar(y) == y
    ensures x !in Normalize(s)
  {
    if x in Normalize(s) {
      SignatureChar(s, x);
      var c :| c in s && c !in Punctuation && x == Key(c);
      KeyChar(c);
      assert false;
    }
  }

  /** The tables fold å but not Å: normalisation does not treat the two cases alike. */
  lemma CapitalAringNotFolded()
    ensures Normalize("Å") == "å"
    ensures Normalize("å") == "a"
    ensures Normalize(Normalize("Å")) != Normalize("Å")
  {
    OneCharSignature('Å', 'å');
    OneCharSignature('å', 'a');
  }

  lemma OneCharSignature(c: char, k: char)
    requires c !in Punctuation && Key(c) == k
    ensures Normalize([c]) == [k]
  {
    NormalizeOneChar(c);
  }

  /** The signature of a one-character word is that character's key. */
  lemma NormalizeOneChar(c: char)
    requires c !in Punctuation
    ensures Normalize([c]) == [Key(c)]
  {
    assert Canon([c]) == [Key(c)] by {
      assert [c][1..] == [];
    }
    NormalizeSpec([c]);
    SortedUnique(Normalize([c]), [Key(c)]);
  }
}
