/**
 The required- and forbidden-character tests (anagram.py `incl` and `excl`),
 applied to a signature.
 */
module CharFilter {

  /** Every character of `chars` occurs in `s`; true for empty `chars`. */
  predicate Incl(s: string, chars: string)
  {
    forall c :: c in chars ==> c in s
  }

  /** No character of `chars` occurs in `s`. */
  predicate Excl(s: string, chars: string)
  {
    forall c :: c in chars ==> c !in s
  }

  /** `incl`: scans `chars`, returning False at the first one missing from `s`. */
  method InclScan(s: string, chars: string) returns (ok: bool)
    ensures ok == Incl(s, chars)
    ensures ok <==> forall k :: 0 <= k < |chars| ==> chars[k] in s
  {
    for k := 0 to |chars|
      invariant forall i :: 0 <= i < k ==> chars[i] in s
    {
      if chars[k] !in s {
        return false;
      }
    }
    return true;
  }

  /** `excl`: scans `chars`, returning False at the first one present in `s`. */
  method ExclScan(s: string, chars: string) returns (ok: bool)
    ensures ok == Excl(s, chars)
    ensures ok <==> forall k :: 0 <= k < |chars| ==> chars[k] !in s
  {
    for k := 0 to |chars|
      invariant forall i :: 0 <= i < k ==> chars[i] !in s
    {
      if chars[k] in s {
        return false;
      }
    }
    return true;
  }

  /** Neither test depends on the order or the repetition of the characters asked for. */
  lemma CharSetOnly(s: string, chars1: string, chars2: string)
    requires forall c :: c in chars1 <==> c in chars2
    ensures Incl(s, chars1) == Incl(s, chars2)
    ensures Excl(s, chars1) == Excl(s, chars2)
  {
  }

  /** Requiring nothing always passes; forbidding a character fails exactly on strings holding it. */
  lemma CharFilterEdges(s: string, c: char)
    ensures Incl(s, "")
    ensures Excl(s, [c]) <==> c !in s
    ensures Incl(s, [c]) <==> c in s
  {
    assert c in [c];
  }
}
