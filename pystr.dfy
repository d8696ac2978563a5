/** The Python `str` operations the formatter relies on, over sequences of code points. */
module PyStr {
  import opened Basics

  /** `pat` occurs in `s` at index `i`. */
  predicate StartsAt(s: string, pat: string, i: int)
  {
    0 <= i && i + |pat| <= |s| && s[i..i + |pat|] == pat
  }

  /** Python's `pat in s`. */
  predicate Contains(s: string, pat: string)
  {
    exists i :: 0 <= i <= |s| && StartsAt(s, pat, i)
  }

  /** `s.replace('', sep)`: `sep` before every character and once more at the end. */
  function Interleave(s: string, sep: string): string
  {
    if s == [] then sep else sep + [s[0]] + Interleave(s[1..], sep)
  }

  /** `s.replace(pat, rep)` for a non-empty `pat`: occurrences are found left to right
      and do not overlap. */
  function ReplaceNonEmpty(s: string, pat: string, rep: string): string
    requires pat != []
    decreases |s|
  {
    if |s| < |pat| then s
    else if s[..|pat|] == pat then rep + ReplaceNonEmpty(s[|pat|..], pat, rep)
    else [s[0]] + ReplaceNonEmpty(s[1..], pat, rep)
  }

  /** Python's `s.replace(pat, rep)` with no count. */
  function Replace(s: string, pat: string, rep: string): string
  {
    if pat == [] then Interleave(s, rep) else ReplaceNonEmpty(s, pat, rep)
  }

  /** `s.rsplit('/', 1)[1]`: what follows the last '/', or None where Python raises
      IndexError because `s` holds no '/'. */
  function AfterLastSlash(s: string): (r: Option<string>)
    ensures r.None? <==> '/' !in s
    ensures r.Some? ==> |r.value| < |s| && s[|s| - |r.value| - 1] == '/'
    ensures r.Some? ==> s[|s| - |r.value|..] == r.value && '/' !in r.value
  {
    if s == [] then None
    else if s[|s| - 1] == '/' then Some([])
    else
      var init := s[..|s| - 1];
      assert s == init + [s[|s| - 1]];
      match AfterLastSlash(init)
      case None => None
      case Some(seg) => Some(seg + [s[|s| - 1]])
  }

  // ---------------------------------------------------------------------------
  // Occurrences

  lemma StartsAtShift(s: string, n: nat, pat: string, i: int)
    requires n <= |s| && StartsAt(s[n..], pat, i)
    ensures StartsAt(s, pat, i + n)
  {
    assert s[n..][i..i + |pat|] == s[i + n..i + n + |pat|];
  }

  lemma StartsAtUnshift(s: string, n: nat, pat: string, i: int)
    requires n <= i && StartsAt(s, pat, i)
    ensures StartsAt(s[n..], pat, i - n)
  {
    assert s[n..][i - n..i - n + |pat|] == s[i..i + |pat|];
  }

  /** The empty string occurs in every string. */
  lemma ContainsEmpty(s: string)
    ensures Contains(s, [])
  {
    assert StartsAt(s, [], 0);
  }

  /** A one-character pattern occurs exactly when the character does. */
  lemma ContainsChar(s: string, c: char)
    ensures Contains(s, [c]) <==> c in s
  {
    if c in s {
      var i :| 0 <= i < |s| && s[i] == c;
      assert StartsAt(s, [c], i);
    }
    if Contains(s, [c]) {
      var i :| 0 <= i <= |s| && StartsAt(s, [c], i);
      assert s[i..i + 1][0] == s[i];
    }
  }

  // ---------------------------------------------------------------------------
  // Replace: when it changes its input

  lemma {:induction false} ReplaceAbsentNonEmpty(s: string, pat: string, rep: string)
    requires pat != [] && !Contains(s, pat)
    ensures ReplaceNonEmpty(s, pat, rep) == s
    decreases |s|
  {
    if |s| >= |pat| {
      assert !StartsAt(s, pat, 0);
      forall i | StartsAt(s[1..], pat, i) ensures false {
        StartsAtShift(s, 1, pat, i);
      }
      ReplaceAbsentNonEmpty(s[1..], pat, rep);
    }
  }

  lemma {:induction false} InterleaveEmpty(s: string)
    ensures Interleave(s, []) == s
  {
    if s != [] { InterleaveEmpty(s[1..]); }
  }

  lemma {:induction false} InterleaveGrows(s: string, sep: string)
    ensures |Interleave(s, sep)| >= |s| + |sep|
  {
    if s != [] { InterleaveGrows(s[1..], sep); }
  }

  lemma {:induction false} ReplaceSelfNonEmpty(s: string, pat: string)
    requires pat != []
    ensures ReplaceNonEmpty(s, pat, pat) == s
    decreases |s|
  {
    if |s| >= |pat| {
      if s[..|pat|] == pat {
        ReplaceSelfNonEmpty(s[|pat|..], pat);
        assert s == s[..|pat|] + s[|pat|..];
      } else {
        ReplaceSelfNonEmpty(s[1..], pat);
      }
    }
  }

  lemma {:induction false} ReplaceLengthNonEmpty(s: string, pat: string, rep: string)
    requires pat != []
    ensures |rep| <= |pat| ==> |ReplaceNonEmpty(s, pat, rep)| <= |s|
    ensures |rep| >= |pat| ==> |ReplaceNonEmpty(s, pat, rep)| >= |s|
    decreases |s|
  {
    if |s| >= |pat| {
      if s[..|pat|] == pat {
        ReplaceLengthNonEmpty(s[|pat|..], pat, rep);
      } else {
        ReplaceLengthNonEmpty(s[1..], pat, rep);
      }
    }
  }

  /** A replacement no longer than the pattern never lengthens the string, and one no
      shorter never shortens it; the empty pattern counts as shorter than any
      replacement and as no shorter than an empty one. */
  lemma ReplaceLength(s: string, pat: string, rep: string)
    ensures |rep| <= |pat| ==> |Replace(s, pat, rep)| <= |s|
    ensures |rep| >= |pat| ==> |Replace(s, pat, rep)| >= |s|
  {
    if pat == [] {
      InterleaveGrows(s, rep);
      if rep == [] { InterleaveEmpty(s); }
    } else {
      ReplaceLengthNonEmpty(s, pat, rep);
    }
  }

  lemma {:induction false} ReplaceChangesNonEmpty(s: string, pat: string, rep: string)
    requires pat != [] && Contains(s, pat) && rep != pat
    ensures ReplaceNonEmpty(s, pat, rep) != s
    decreases |s|
  {
    var i :| StartsAt(s, pat, i);
    assert StartsAt(s, pat, i);
    var r := ReplaceNonEmpty(s, pat, rep);
    if s[..|pat|] == pat {
      var rest := s[|pat|..];
      assert r == rep + ReplaceNonEmpty(rest, pat, rep);
      ReplaceLengthNonEmpty(rest, pat, rep);
      if |rep| == |pat| {
        assert r[..|pat|] == rep;
      }
    } else {
      assert !StartsAt(s, pat, 0) by { assert s[..|pat|] == s[0..0 + |pat|]; }
      StartsAtUnshift(s, 1, pat, i);
      ReplaceChangesNonEmpty(s[1..], pat, rep);
      assert r == [s[0]] + ReplaceNonEmpty(s[1..], pat, rep);
      assert r[1..] == ReplaceNonEmpty(s[1..], pat, rep);
    }
  }

  /** `s.replace(pat, rep)` returns `s` itself exactly when `pat` does not occur in `s`
      or `rep` is `pat`. */
  lemma ReplaceUnchangedIff(s: string, pat: string, rep: string)
    ensures Replace(s, pat, rep) == s <==> !Contains(s, pat) || rep == pat
  {
    if pat == [] {
      ContainsEmpty(s);
      InterleaveGrows(s, rep);
      if rep == [] { InterleaveEmpty(s); }
    } else if !Contains(s, pat) {
      ReplaceAbsentNonEmpty(s, pat, rep);
    } else if rep == pat {
      ReplaceSelfNonEmpty(s, pat);
    } else {
      ReplaceChangesNonEmpty(s, pat, rep);
    }
  }

  /** A pattern that does not occur leaves the string as it is. */
  lemma ReplaceAbsent(s: string, pat: string, rep: string)
    requires !Contains(s, pat)
    ensures Replace(s, pat, rep) == s
  {
    ReplaceUnchangedIff(s, pat, rep);
  }

  // ---------------------------------------------------------------------------
  // Replace: what the result is made of

  /** Text before the first occurrence is kept as it is. */
  lemma {:induction false} ReplaceSkip(s: string, pat: string, rep: string, k: nat)
    requires pat != [] && k <= |s|
    requires forall j :: 0 <= j < k ==> !StartsAt(s, pat, j)
    ensures ReplaceNonEmpty(s, pat, rep) == s[..k] + ReplaceNonEmpty(s[k..], pat, rep)
    decreases k
  {
    if k == 0 {
      assert s[..0] + ReplaceNonEmpty(s[0..], pat, rep) == ReplaceNonEmpty(s, pat, rep) by {
        assert s[0..] == s;
      }
    } else {
      var tail := s[1..];
      var rest := ReplaceNonEmpty(s[k..], pat, rep);
      calc {
        ReplaceNonEmpty(s, pat, rep);
        { ReplaceNoMatchHead(s, pat, rep); }
        [s[0]] + ReplaceNonEmpty(tail, pat, rep);
        { NoEarlierInTail(s, pat, k);
          ReplaceSkip(tail, pat, rep, k - 1);
          assert tail[k - 1..] == s[k..]; }
        [s[0]] + (tail[..k - 1] + rest);
        { assert [s[0]] + tail[..k - 1] == s[..k]; }
        s[..k] + rest;
      }
    }
  }

  /** The `ReplaceNonEmpty` step behind `ReplaceFirst`. */
  lemma ReplaceFirstNonEmpty(s: string, pat: string, rep: string, k: nat)
    requires pat != [] && StartsAt(s, pat, k)
    requires forall j :: 0 <= j < k ==> !StartsAt(s, pat, j)
    ensures ReplaceNonEmpty(s, pat, rep) == s[..k] + rep + ReplaceNonEmpty(s[k + |pat|..], pat, rep)
  {
    var rest := ReplaceNonEmpty(s[k + |pat|..], pat, rep);
    ReplaceSkip(s, pat, rep, k);
    StartsAtUnshift(s, k, pat, k);
    ReplaceMatchHead(s[k..], pat, rep);
    assert s[k..][|pat|..] == s[k + |pat|..];
    AppendAssoc(s[..k], rep, rest);
  }

  /** Concatenation regrouped, over abstract strings. */
  lemma AppendAssoc(a: string, b: string, c: string)
    ensures a + (b + c) == a + b + c
  {
  }

  /** A match at the front is replaced. */
  lemma ReplaceMatchHead(s: string, pat: string, rep: string)
    requires pat != [] && StartsAt(s, pat, 0)
    ensures ReplaceNonEmpty(s, pat, rep) == rep + ReplaceNonEmpty(s[|pat|..], pat, rep)
  {
    assert s[..|pat|] == s[0..0 + |pat|];
  }

  /** Without a match at the front, the first character is kept. */
  lemma ReplaceNoMatchHead(s: string, pat: string, rep: string)
    requires pat != [] && s != [] && !StartsAt(s, pat, 0)
    ensures ReplaceNonEmpty(s, pat, rep) == [s[0]] + ReplaceNonEmpty(s[1..], pat, rep)
  {
    if |s| >= |pat| {
      assert s[..|pat|] == s[0..0 + |pat|];
    }
  }

  lemma NoEarlierInTail(s: string, pat: string, k: nat)
    requires 1 <= k <= |s|
    requires forall j :: 0 <= j < k ==> !StartsAt(s, pat, j)
    ensures forall j :: 0 <= j < k - 1 ==> !StartsAt(s[1..], pat, j)
  {
    forall j | 0 <= j < k - 1 ensures !StartsAt(s[1..], pat, j) {
      if StartsAt(s[1..], pat, j) { StartsAtShift(s, 1, pat, j); }
    }
  }

  /** Replacement proceeds from the first occurrence: the text before it is kept, the
      occurrence becomes `rep`, and the rest is replaced in turn. */
  lemma ReplaceFirst(s: string, pat: string, rep: string, k: nat)
    requires pat != [] && StartsAt(s, pat, k)
    requires forall j :: 0 <= j < k ==> !StartsAt(s, pat, j)
    ensures Replace(s, pat, rep) == s[..k] + rep + Replace(s[k + |pat|..], pat, rep)
  {
    ReplaceFirstNonEmpty(s, pat, rep, k);
  }

  lemma {:induction false} InterleaveChars(s: string, sep: string)
    ensures forall c :: c in Interleave(s, sep) ==> c in s || c in sep
  {
    if s != [] { InterleaveChars(s[1..], sep); }
  }

  lemma {:induction false} ReplaceNonEmptyChars(s: string, pat: string, rep: string)
    requires pat != []
    ensures forall c :: c in ReplaceNonEmpty(s, pat, rep) ==> c in s || c in rep
    decreases |s|
  {
    if |s| >= |pat| {
      if s[..|pat|] == pat {
        ReplaceNonEmptyChars(s[|pat|..], pat, rep);
        assert forall c :: c in s[|pat|..] ==> c in s;
      } else {
        ReplaceNonEmptyChars(s[1..], pat, rep);
      }
    }
  }

  /** Every character of `s.replace(pat, rep)` comes from `s` or from `rep`. */
  lemma ReplaceChars(s: string, pat: string, rep: string)
    ensures forall c :: c in Replace(s, pat, rep) ==> c in s || c in rep
  {
    if pat == [] { InterleaveChars(s, rep); } else { ReplaceNonEmptyChars(s, pat, rep); }
  }

  /** Replacing a single character by a string without it leaves no such character. */
  lemma {:induction false} ReplaceRemovesChar(s: string, c: char, rep: string)
    requires c !in rep
    ensures c !in Replace(s, [c], rep)
    decreases |s|
  {
    if s != [] {
      ReplaceRemovesChar(s[1..], c, rep);
    }
  }
}
