/**
 The word list the anagram search runs over (anagram.py:57 and 203): the
 German list's comment and annotation cleanup, then the merge of all chosen
 lists into one newline-free, duplicate-free, sorted sequence of words.
 */
module Corpus {
  import opened Ordering
  import Signature

  // ---------------------------------------------------------------------------
  // German list cleanup (anagram.py:57, pattern `slashtag` at 144)

  /** Length of the run of non-slash characters at the start of `s`: what `[^/]*` matches. */
  function NonSlashRun(s: string): (n: nat)
    ensures n <= |s|
    ensures '/' !in s[..n]
    ensures n < |s| ==> s[n] == '/'
  {
    if s == [] || s[0] == '/' then 0 else 1 + NonSlashRun(s[1..])
  }

  /**
   `slashtag.sub('', line)`: scanning left to right, each match is a slash
   with the run of non-slash characters after it, and it is removed.
   */
  function SlashTagSub(line: string): string
    decreases |line|
  {
    if line == [] then []
    else if line[0] == '/' then SlashTagSub(line[1 + NonSlashRun(line[1..])..])
    else [line[0]] + SlashTagSub(line[1..])
  }

  /** Every annotation match is removed, and what follows a slash is always inside a match. */
  lemma {:induction false} SlashTagSubFromSlash(line: string)
    requires line != [] && line[0] == '/'
    ensures SlashTagSub(line) == []
    decreases |line|
  {
    var rest := line[1 + NonSlashRun(line[1..])..];
    if rest != [] {
      assert rest[0] == '/';
      SlashTagSubFromSlash(rest);
    }
  }

  /** The cleaned line is the part of the line before its first slash, the whole line when it has none. */
  lemma {:induction false} SlashTagSubPrefix(line: string)
    ensures SlashTagSub(line) == line[..NonSlashRun(line)]
    ensures '/' !in SlashTagSub(line)
    ensures '/' !in line ==> SlashTagSub(line) == line
    decreases |line|
  {
    if line != [] {
      if line[0] == '/' {
        SlashTagSubFromSlash(line);
      } else {
        SlashTagSubPrefix(line[1..]);
        assert line[..NonSlashRun(line)] == [line[0]] + line[1..][..NonSlashRun(line[1..])];
      }
    }
    if '/' !in line {
      assert NonSlashRun(line) == |line|;
    }
  }

  predicate IsComment(line: string)
    requires line != []
  {
    line[0] == '#'
  }

  /** The list comprehension of anagram.py:57 over the lines of the German list. */
  function GermanLines(lines: seq<string>): (kept: seq<string>)
    requires forall k :: 0 <= k < |lines| ==> lines[k] != []
  {
    if lines == [] then []
    else (if IsComment(lines[0]) then [] else [SlashTagSub(lines[0])]) + GermanLines(lines[1..])
  }

  /**
   Comment lines are dropped; every other line is kept, in order, cut
   before its first slash.
   */
  lemma {:induction false} GermanLinesSpec(lines: seq<string>)
    requires forall k :: 0 <= k < |lines| ==> lines[k] != []
    ensures forall x :: x in GermanLines(lines) ==> '/' !in x
    ensures forall x :: x in GermanLines(lines) <==>
      exists k :: 0 <= k < |lines| && !IsComment(lines[k]) && x == lines[k][..NonSlashRun(lines[k])]
  {
    if lines != [] {
      GermanLinesSpec(lines[1..]);
      SlashTagSubPrefix(lines[0]);
      forall x
        ensures x in GermanLines(lines) <==>
          exists k :: 0 <= k < |lines| && !IsComment(lines[k]) && x == lines[k][..NonSlashRun(lines[k])]
      {
        if exists k :: 0 <= k < |lines| && !IsComment(lines[k]) && x == lines[k][..NonSlashRun(lines[k])] {
          var k :| 0 <= k < |lines| && !IsComment(lines[k]) && x == lines[k][..NonSlashRun(lines[k])];
          if k > 0 {
            assert lines[1..][k - 1] == lines[k];
          }
        }
        if x in GermanLines(lines[1..]) {
          var k :| 0 <= k < |lines[1..]| && !IsComment(lines[1..][k]) && x == lines[1..][k][..NonSlashRun(lines[1..][k])];
          assert lines[k + 1] == lines[1..][k];
        }
      }
    }
  }

  // ---------------------------------------------------------------------------
  // Merging the chosen lists (anagram.py:203)

  /** `word.replace("\n", "")`. */
  function StripNewlines(word: string): string
  {
    Signature.Delete({'\n'}, word)
  }

  /** All words of all chosen lists, list after list. */
  function Flatten(dictionaryList: seq<seq<string>>): seq<string>
  {
    if dictionaryList == [] then [] else dictionaryList[0] + Flatten(dictionaryList[1..])
  }

  lemma {:induction false} FlattenMembers(dictionaryList: seq<seq<string>>, w: string)
    ensures w in Flatten(dictionaryList) <==>
      exists i, j :: 0 <= i < |dictionaryList| && 0 <= j < |dictionaryList[i]| && w == dictionaryList[i][j]
  {
    if dictionaryList != [] {
      FlattenMembers(dictionaryList[1..], w);
      var tail := dictionaryList[1..];
      if exists i, j :: 0 <= i < |tail| && 0 <= j < |tail[i]| && w == tail[i][j] {
        var i, j :| 0 <= i < |tail| && 0 <= j < |tail[i]| && w == tail[i][j];
        assert dictionaryList[i + 1][j] == w;
      }
      if exists i, j :: 0 <= i < |dictionaryList| && 0 <= j < |dictionaryList[i]| && w == dictionaryList[i][j] {
        var i, j :| 0 <= i < |dictionaryList| && 0 <= j < |dictionaryList[i]| && w == dictionaryList[i][j];
        if i > 0 {
          assert tail[i - 1][j] == w;
        }
      }
    }
  }

  /** Inserts a word into a strictly ascending sequence, unless it is already there. */
  function InsertWord(w: string, s: seq<string>): (r: seq<string>)
    requires StrictlyAscending(s)
    ensures StrictlyAscending(r)
    ensures forall x :: x in r <==> x == w || x in s
  {
    if s == [] then [w]
    else if w == s[0] then s
    else if Below(w, s[0]) then
      assert forall j :: 0 <= j < |s| ==> Below(w, s[j]) by {
        forall j | 0 < j < |s| {
          BelowTransitive(w, s[0], s[j]);
        }
      }
      [w] + s
    else
      BelowTotal(w, s[0]);
      var t := InsertWord(w, s[1..]);
      assert forall j :: 0 <= j < |t| ==> Below(s[0], t[j]) by {
        forall j | 0 <= j < |t|
          ensures Below(s[0], t[j])
        {
          assert t[j] in t;
          if t[j] != w {
            var k :| 0 <= k < |s[1..]| && s[1..][k] == t[j];
            assert s[k + 1] == t[j];
          }
        }
      }
      assert s == [s[0]] + s[1..];
      [s[0]] + t
  }

  /** `sorted(set(words))`. */
  function SortedSet(words: seq<string>): (r: seq<string>)
    ensures StrictlyAscending(r)
    ensures forall x :: x in r <==> x in words
  {
    if words == [] then [] else InsertWord(words[0], SortedSet(words[1..]))
  }

  /** The newline-stripped words of all chosen lists, duplicates still in. */
  function Words(dictionaryList: seq<seq<string>>): seq<string>
  {
    var all := Flatten(dictionaryList);
    seq(|all|, k requires 0 <= k < |all| => StripNewlines(all[k]))
  }

  /** The single word list of anagram.py:203. */
  function PrepareCorpus(dictionaryList: seq<seq<string>>): (corpus: seq<string>)
  {
    SortedSet(Words(dictionaryList))
  }

  /** A word of some chosen list, with its newlines removed. */
  ghost predicate Listed(dictionaryList: seq<seq<string>>, w: string)
  {
    exists i, j :: 0 <= i < |dictionaryList| && 0 <= j < |dictionaryList[i]| && w == StripNewlines(dictionaryList[i][j])
  }

  /**
   The word list is strictly ascending (so free of duplicates), holds no
   newline, and holds exactly the listed words.
   */
  lemma PrepareCorpusSpec(dictionaryList: seq<seq<string>>)
    ensures StrictlyAscending(PrepareCorpus(dictionaryList))
    ensures forall w :: w in PrepareCorpus(dictionaryList) ==> '\n' !in w
    ensures forall w :: w in PrepareCorpus(dictionaryList) <==> Listed(dictionaryList, w)
  {
    var all := Flatten(dictionaryList);
    forall w
      ensures w in PrepareCorpus(dictionaryList) <==> Listed(dictionaryList, w)
      ensures w in PrepareCorpus(dictionaryList) ==> '\n' !in w
    {
      if w in Words(dictionaryList) {
        var k :| 0 <= k < |all| && w == StripNewlines(all[k]);
        FlattenMembers(dictionaryList, all[k]);
        Signature.DeleteMembers({'\n'}, all[k], '\n');
      }
      if Listed(dictionaryList, w) {
        var i, j :| 0 <= i < |dictionaryList| && 0 <= j < |dictionaryList[i]| && w == StripNewlines(dictionaryList[i][j]);
        FlattenMembers(dictionaryList, dictionaryList[i][j]);
        var k :| 0 <= k < |all| && all[k] == dictionaryList[i][j];
        assert Words(dictionaryList)[k] == w;
      }
    }
  }

  /** Any strictly ascending sequence of exactly the listed words is the prepared word list. */
  lemma PrepareCorpusUnique(dictionaryList: seq<seq<string>>, words: seq<string>)
    requires StrictlyAscending(words)
    requires forall w :: w in words <==> Listed(dictionaryList, w)
    ensures words == PrepareCorpus(dictionaryList)
  {
    PrepareCorpusSpec(dictionaryList);
    AscendingUnique(words, PrepareCorpus(dictionaryList));
  }
}
