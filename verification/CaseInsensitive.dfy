/** CaseInsensitiveStringEquals: comparing strings that may hold NUL characters piece by piece. */
module CaseInsensitive {
  import opened Options

  const NUL: char := '\0'

  /** Case folding, as a C library locale defines it: no other character folds to what NUL folds to. */
  ghost predicate KeepsNul(fold: char -> char) {
    forall c: char :: fold(c) == fold(NUL) <==> c == NUL
  }

  /** std::string::c_str: the characters and a terminator. */
  function CStr(s: string): string {
    s + [NUL]
  }

  /** strcasecmp on NUL-terminated buffers: walks until a difference or the terminator. */
  predicate CStringEquals(fold: char -> char, b1: string, b2: string)
    requires NUL in b1 && NUL in b2
  {
    if fold(b1[0]) != fold(b2[0]) then false
    else if b1[0] == NUL || b2[0] == NUL then true
    else CStringEquals(fold, b1[1..], b2[1..])
  }

  /** std::string::find of NUL; None stands for npos. */
  function Find(s: string): (r: Option<nat>)
    ensures r.None? ==> forall k | 0 <= k < |s| :: s[k] != NUL
    ensures r.Some? ==> r.value < |s| && s[r.value] == NUL && forall k | 0 <= k < r.value :: s[k] != NUL
  {
    if s == [] then None
    else if s[0] == NUL then Some(0)
    else
      match Find(s[1..])
      case None => None
      case Some(i) => Some(i + 1)
  }

  predicate CaseInsensitiveStringEquals(fold: char -> char, s1: string, s2: string)
    decreases |s1|
  {
    if !CStringEquals(fold, CStr(s1), CStr(s2)) then false
    else
      var i1, i2 := Find(s1), Find(s2);
      if i1.None? || i2.None? then i1.None? && i2.None?
      else CaseInsensitiveStringEquals(fold, s1[i1.value + 1..], s2[i2.value + 1..])
  }

  /** Equality of whole strings: same length, same folded character everywhere. */
  ghost predicate SameFolded(fold: char -> char, s1: string, s2: string) {
    |s1| == |s2| && forall i | 0 <= i < |s1| :: fold(s1[i]) == fold(s2[i])
  }

  /** The part strcasecmp sees: everything before the first NUL. */
  function Head(s: string): string {
    match Find(s) case None => s case Some(i) => s[..i]
  }

  lemma {:induction false} CStringEqualsComparesHeads(fold: char -> char, s1: string, s2: string)
    requires KeepsNul(fold)
    ensures CStringEquals(fold, CStr(s1), CStr(s2)) <==> SameFolded(fold, Head(s1), Head(s2))
    decreases |s1|
  {
    HeadUnfolds(s1);
    HeadUnfolds(s2);
    if s1 != [] && s2 != [] && s1[0] != NUL && s2[0] != NUL {
      assert CStr(s1)[1..] == CStr(s1[1..]) && CStr(s2)[1..] == CStr(s2[1..]);
      CStringEqualsComparesHeads(fold, s1[1..], s2[1..]);
      SameFoldedUnfolds(fold, Head(s1), Head(s2));
    }
  }

  lemma HeadUnfolds(s: string)
    ensures if s == [] || s[0] == NUL then Head(s) == [] else Head(s) == [s[0]] + Head(s[1..])
  {
  }

  lemma SameFoldedUnfolds(fold: char -> char, s1: string, s2: string)
    requires s1 != [] && s2 != []
    ensures SameFolded(fold, s1, s2) <==> fold(s1[0]) == fold(s2[0]) && SameFolded(fold, s1[1..], s2[1..])
  {
    if SameFolded(fold, s1[1..], s2[1..]) {
      forall i | 1 <= i < |s1| ensures fold(s1[i]) == fold(s2[i]) {
        assert s1[i] == s1[1..][i - 1] && s2[i] == s2[1..][i - 1];
      }
    }
  }

  /** Skipping the equal heads loses nothing: the recursion compares the whole strings. */
  lemma {:induction false} EqualsWholeStrings(fold: char -> char, s1: string, s2: string)
    requires KeepsNul(fold)
    ensures CaseInsensitiveStringEquals(fold, s1, s2) <==> SameFolded(fold, s1, s2)
    decreases |s1|
  {
    CStringEqualsComparesHeads(fold, s1, s2);
    var i1, i2 := Find(s1), Find(s2);
    if i1.Some? && i2.Some? {
      EqualsWholeStrings(fold, s1[i1.value + 1..], s2[i2.value + 1..]);
    }
    if SameFolded(fold, s1, s2) {
      SameHeads(fold, s1, s2);
    }
    if i1.Some? && i1 == i2 {
      SplitAt(fold, s1, s2, i1.value);
    }
  }

  lemma SplitAt(fold: char -> char, s1: string, s2: string, i: nat)
    requires i < |s1| && i < |s2| && s1[i] == s2[i]
    ensures SameFolded(fold, s1, s2)
       <==> SameFolded(fold, s1[..i], s2[..i]) && SameFolded(fold, s1[i + 1..], s2[i + 1..])
  {
    var t1, t2 := s1[i + 1..], s2[i + 1..];
    if SameFolded(fold, s1[..i], s2[..i]) && SameFolded(fold, t1, t2) {
      forall k | 0 <= k < |s1| ensures fold(s1[k]) == fold(s2[k]) {
        if k < i {
          assert s1[k] == s1[..i][k] && s2[k] == s2[..i][k];
        } else if k > i {
          assert s1[k] == t1[k - i - 1] && s2[k] == t2[k - i - 1];
        }
      }
    }
  }

  /** Strings that agree have their first NUL, if any, at the same place. */
  lemma SameHeads(fold: char -> char, s1: string, s2: string)
    requires KeepsNul(fold) && SameFolded(fold, s1, s2)
    ensures Find(s1) == Find(s2) && SameFolded(fold, Head(s1), Head(s2))
  {
    forall k | 0 <= k < |s1| ensures s1[k] == NUL <==> s2[k] == NUL {
      assert fold(s1[k]) == fold(s2[k]);
    }
  }

  /** The recursion decides equality of whole strings exactly for the folds that keep NUL apart: for any
      other, a string of one character equals the empty string. */
  lemma DecidesExactlyWhenNulIsKept(fold: char -> char)
    ensures (forall s1: string, s2: string ::
               CaseInsensitiveStringEquals(fold, s1, s2) <==> SameFolded(fold, s1, s2))
       <==> KeepsNul(fold)
  {
    if KeepsNul(fold) {
      forall s1: string, s2: string
        ensures CaseInsensitiveStringEquals(fold, s1, s2) <==> SameFolded(fold, s1, s2)
      {
        EqualsWholeStrings(fold, s1, s2);
      }
    } else {
      var c: char :| c != NUL && fold(c) == fold(NUL);
      EqualsEmpty(fold, c);
    }
  }

  lemma EqualsEmpty(fold: char -> char, c: char)
    requires c != NUL && fold(c) == fold(NUL)
    ensures CaseInsensitiveStringEquals(fold, [c], "") && !SameFolded(fold, [c], "")
  {
    assert Find([c][1..]) == None;
  }

  /** It does fail: a fold that sends everything to NUL takes "a" for the empty string. */
  lemma FoldingToNulExample()
    ensures var fold := (c: char) => NUL;
      CaseInsensitiveStringEquals(fold, "a", "") && !SameFolded(fold, "a", "")
  {
    EqualsEmpty((c: char) => NUL, 'a');
  }
}
