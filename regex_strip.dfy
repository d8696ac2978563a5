/** `re.sub('\\s*' + re.escape(url) + '\\s*', '', text)`: delete every occurrence of a
    literal string together with the whitespace runs around it. The search is leftmost
    first; the leading `\s*` is greedy and gives back characters when the literal needs
    them, the trailing `\s*` takes the whole run that follows. */
module RegexStrip {
  import opened Basics
  import opened PyStr

  /** The characters `\s` matches in a Python 3 `str` pattern. */
  predicate IsSpace(c: char)
  {
    ('\t' <= c <= '\r') || ('\U{1C}' <= c <= ' ') || c == '\U{85}' || c == '\U{A0}'
    || c == '\U{1680}' || ('\U{2000}' <= c <= '\U{200A}') || c == '\U{2028}'
    || c == '\U{2029}' || c == '\U{202F}' || c == '\U{205F}' || c == '\U{3000}'
  }

  /** The length of the whitespace run at the start of `s`. */
  function SpaceRun(s: string): (n: nat)
    ensures n <= |s|
    ensures n == |s| || !IsSpace(s[n])
  {
    if s != [] && IsSpace(s[0]) then 1 + SpaceRun(s[1..]) else 0
  }

  /** Everything `SpaceRun` counts is whitespace. */
  lemma {:induction false} SpaceRunSpaces(s: string)
    ensures forall i :: 0 <= i < SpaceRun(s) ==> IsSpace(s[i])
    decreases |s|
  {
    if s != [] && IsSpace(s[0]) {
      SpaceRunSpaces(s[1..]);
      assert forall i :: 1 <= i < SpaceRun(s) ==> s[i] == s[1..][i - 1];
    }
  }

  /** `SpaceRun` is determined by where the run stops. */
  lemma {:induction false} SpaceRunExact(s: string, n: nat)
    requires n <= |s| && forall i :: 0 <= i < n ==> IsSpace(s[i])
    requires n == |s| || !IsSpace(s[n])
    ensures SpaceRun(s) == n
    decreases n
  {
    if n > 0 {
      assert forall i :: 0 <= i < n - 1 ==> s[1..][i] == s[i + 1];
      assert n - 1 == |s[1..]| || s[1..][n - 1] == s[n];
      SpaceRunExact(s[1..], n - 1);
    }
  }

  /** The largest `j <= k` at which `url` occurs, the greedy leading `\s*` backtracking
      one character at a time. */
  function LeadBefore(s: string, url: string, k: nat): (r: Option<nat>)
    ensures r.Some? ==> r.value <= k && StartsAt(s, url, r.value)
  {
    if StartsAt(s, url, k) then Some(k)
    else if k == 0 then None
    else LeadBefore(s, url, k - 1)
  }

  /** No match is found only when the literal occurs nowhere up to `k`. */
  lemma {:induction false} LeadBeforeNone(s: string, url: string, k: nat)
    requires LeadBefore(s, url, k).None?
    ensures forall j :: 0 <= j <= k ==> !StartsAt(s, url, j)
    decreases k
  {
    if k > 0 {
      LeadBeforeNone(s, url, k - 1);
    }
  }

  /** The leading `\s*` takes as much whitespace as it can: no later start up to `k`
      would do. */
  lemma {:induction false} LeadBeforeLargest(s: string, url: string, k: nat, j: nat)
    requires LeadBefore(s, url, k).Some? && LeadBefore(s, url, k).value < j <= k
    ensures !StartsAt(s, url, j)
    decreases k
  {
    if !StartsAt(s, url, k) && k > 0 && j < k {
      LeadBeforeLargest(s, url, k - 1, j);
    }
  }

  /** Where a match of the pattern that starts at the front of `s` ends, if one does. */
  function MatchEnd(s: string, url: string): (r: Option<nat>)
    ensures r.Some? ==> |url| <= r.value <= |s|
  {
    match LeadBefore(s, url, SpaceRun(s))
    case None => None
    case Some(j) => Some(j + |url| + SpaceRun(s[j + |url|..]))
  }

  /** The substitution itself; an empty match deletes nothing and the scan moves on by
      one character. */
  function Strip(s: string, url: string): string
    decreases |s|
  {
    if s == [] then []
    else
      var m := MatchEnd(s, url);
      if m.Some? && m.value > 0 then Strip(s[m.value..], url)
      else [s[0]] + Strip(s[1..], url)
  }

  // ---------------------------------------------------------------------------

  /** Where the literal does not occur the text is returned unchanged. */
  lemma {:induction false} StripAbsent(s: string, url: string)
    requires !Contains(s, url)
    ensures Strip(s, url) == s
    decreases |s|
  {
    if s != [] {
      forall j | 0 <= j <= |s| ensures !StartsAt(s, url, j) { }
      forall i | 0 <= i <= |s[1..]| && StartsAt(s[1..], url, i) ensures false {
        StartsAtShift(s, 1, url, i);
      }
      StripAbsent(s[1..], url);
    }
  }

  /** Deleting never lengthens the text. */
  lemma {:induction false} StripNoLonger(s: string, url: string)
    ensures |Strip(s, url)| <= |s|
    decreases |s|
  {
    if s != [] {
      var m := MatchEnd(s, url);
      if m.Some? && m.value > 0 {
        StripNoLonger(s[m.value..], url);
      } else {
        StripNoLonger(s[1..], url);
      }
    }
  }

  /** Where a non-empty literal occurs, something is deleted. */
  lemma {:induction false} StripShrinks(s: string, url: string)
    requires url != [] && Contains(s, url)
    ensures |Strip(s, url)| < |s|
    decreases |s|
  {
    var i :| 0 <= i <= |s| && StartsAt(s, url, i);
    var m := MatchEnd(s, url);
    if m.Some? {
      StripNoLonger(s[m.value..], url);
    } else {
      assert LeadBefore(s, url, SpaceRun(s)).None?;
      LeadBeforeNone(s, url, SpaceRun(s));
      assert !StartsAt(s, url, 0);
      StartsAtUnshift(s, 1, url, i);
      StripShrinks(s[1..], url);
    }
  }

  /** The substitution changes the text exactly when a non-empty literal occurs in it. */
  lemma StripUnchangedIff(s: string, url: string)
    requires url != []
    ensures Strip(s, url) == s <==> !Contains(s, url)
  {
    if Contains(s, url) { StripShrinks(s, url); } else { StripAbsent(s, url); }
  }

  /** The result only holds characters of the text. */
  lemma {:induction false} StripChars(s: string, url: string)
    ensures forall c :: c in Strip(s, url) ==> c in s
    decreases |s|
  {
    if s != [] {
      var m := MatchEnd(s, url);
      if m.Some? && m.value > 0 {
        StripChars(s[m.value..], url);
        assert forall c :: c in s[m.value..] ==> c in s;
      } else {
        StripChars(s[1..], url);
      }
    }
  }

  lemma StartsAtSuffix(s: string, k: nat, pat: string, j: nat)
    requires k <= |s|
    ensures StartsAt(s[k..], pat, j) <==> StartsAt(s, pat, j + k)
  {
    if StartsAt(s[k..], pat, j) { StartsAtShift(s, k, pat, j); }
    if StartsAt(s, pat, j + k) { StartsAtUnshift(s, k, pat, j + k); }
  }

  /** No match starts at `k` when a non-space at `a - 1` lies between `k` and the first
      occurrence at `p`. */
  lemma NoMatchAt(s: string, url: string, k: nat, a: nat, p: nat)
    requires k < a <= p <= |s| && !IsSpace(s[a - 1])
    requires forall j :: 0 <= j < p ==> !StartsAt(s, url, j)
    ensures MatchEnd(s[k..], url).None?
  {
    var t := s[k..];
    assert t[a - 1 - k] == s[a - 1];
    var n := SpaceRun(t);
    SpaceRunSpaces(t);
    forall j: nat | j <= n ensures !StartsAt(t, url, j) {
      StartsAtSuffix(s, k, url, j);
    }
  }

  /** Every character of `s` is whitespace. */
  predicate AllSpace(s: string)
    decreases |s|
  {
    s == [] || (IsSpace(s[0]) && AllSpace(s[1..]))
  }

  lemma {:induction false} AllSpaceIndex(s: string)
    ensures AllSpace(s) <==> forall i :: 0 <= i < |s| ==> IsSpace(s[i])
    decreases |s|
  {
    if s != [] {
      AllSpaceIndex(s[1..]);
      assert forall i :: 1 <= i < |s| ==> s[i] == s[1..][i - 1];
    }
  }

  /** A match at the front of `t`: whitespace up to the literal at `j`, then whitespace
      up to `f`. */
  lemma MatchAtFront(t: string, url: string, j: nat, f: nat)
    requires url != [] && !IsSpace(url[0]) && StartsAt(t, url, j)
    requires j + |url| <= f <= |t|
    requires AllSpace(t[..j]) && AllSpace(t[j + |url|..f])
    requires f == |t| || !IsSpace(t[f])
    ensures MatchEnd(t, url) == Some(f)
  {
    assert t[j] == url[0] by { assert t[j..j + |url|][0] == t[j]; }
    AllSpaceIndex(t[..j]);
    assert forall i :: 0 <= i < j ==> t[i] == t[..j][i];
    SpaceRunExact(t, j);
    TrailAt(t, j + |url|, f);
  }

  /** A match starting at `k`: whitespace up to the literal at `p`, then whitespace up to `e`. */
  lemma MatchAt(s: string, url: string, k: nat, p: nat, e: nat)
    requires url != [] && !IsSpace(url[0]) && k <= p && StartsAt(s, url, p)
    requires p + |url| <= e <= |s|
    requires AllSpace(s[k..p]) && AllSpace(s[p + |url|..e])
    requires e == |s| || !IsSpace(s[e])
    ensures MatchEnd(s[k..], url) == Some(e - k)
  {
    var t := s[k..];
    var j, f := p - k, e - k;
    StartsAtSuffix(s, k, url, j);
    assert t[..j] == s[k..p];
    SliceShift(s, k, p + |url|, e);
    assert j + |url| == p + |url| - k;
    assert f < |t| ==> t[f] == s[e];
    MatchAtFront(t, url, j, f);
  }

  /** Slicing a suffix is slicing the whole, shifted; stated apart so that no proof
      has to rediscover it with index arithmetic in view. */
  lemma SliceShift(s: string, k: nat, x: nat, y: nat)
    requires k <= x <= y <= |s|
    ensures s[k..][x - k..y - k] == s[x..y]
  {
  }

  /** The whitespace run from `b` ends at `e`. */
  lemma TrailAt(s: string, b: nat, e: nat)
    requires b <= e <= |s|
    requires AllSpace(s[b..e])
    requires e == |s| || !IsSpace(s[e])
    ensures SpaceRun(s[b..]) == e - b
  {
    var u := s[b..];
    AllSpaceIndex(s[b..e]);
    assert forall i :: 0 <= i < e - b ==> u[i] == s[b..e][i];
    assert e < |s| ==> u[e - b] == s[e];
    SpaceRunExact(u, e - b);
  }

  /** Before the leading run of the first match starts, characters are kept one by one. */
  lemma StripStepKeep(s: string, url: string, k: nat, a: nat, p: nat)
    requires k < a <= p <= |s| && !IsSpace(s[a - 1])
    requires forall j :: 0 <= j < p ==> !StartsAt(s, url, j)
    ensures Strip(s[k..], url) == [s[k]] + Strip(s[k + 1..], url)
  {
    NoMatchAt(s, url, k, a, p);
    StripNoMatchHead(s[k..], url);
    assert s[k..][1..] == s[k + 1..];
  }

  /** A non-empty match found at `a` is deleted and the scan resumes where it ends. */
  lemma StripJump(s: string, url: string, a: nat, e: nat)
    requires a < e <= |s| && MatchEnd(s[a..], url) == Some(e - a)
    ensures Strip(s[a..], url) == Strip(s[e..], url)
  {
    StripMatchHead(s[a..], url, e - a);
    DropDrop(s, a, e);
  }

  /** Dropping `a` and then `e - a` characters drops `e`. */
  lemma DropDrop(s: string, a: nat, e: nat)
    requires a <= e <= |s|
    ensures s[a..][e - a..] == s[e..]
  {
  }

  /** The scan from `k` keeps `s[k..a]` when no occurrence starts before `p` and a
      non-space at `a - 1` stops any leading run from reaching back past `a`. */
  lemma {:induction false} StripKeep(s: string, url: string, k: nat, a: nat, p: nat)
    requires k <= a <= p <= |s|
    requires a == k || !IsSpace(s[a - 1])
    requires forall j :: 0 <= j < p ==> !StartsAt(s, url, j)
    ensures Strip(s[k..], url) == s[k..a] + Strip(s[a..], url)
    decreases a - k
  {
    if k == a {
      DeleteFirst(s, a, Strip(s[a..], url), Strip(s[a..], url));
    } else {
      StripStepKeep(s, url, k, a, p);
      StripKeep(s, url, k + 1, a, p);
      KeepOne(s, k, a, Strip(s[k..], url), Strip(s[k + 1..], url), Strip(s[a..], url));
    }
  }

  /** The match whose leading run starts at `a` is deleted up to `e`. */
  lemma StripDelete(s: string, url: string, a: nat, p: nat, e: nat)
    requires url != [] && !IsSpace(url[0]) && a <= p && StartsAt(s, url, p)
    requires p + |url| <= e <= |s|
    requires AllSpace(s[a..p]) && AllSpace(s[p + |url|..e])
    requires e == |s| || !IsSpace(s[e])
    ensures Strip(s[a..], url) == Strip(s[e..], url)
  {
    MatchAt(s, url, a, p, e);
    StripJump(s, url, a, e);
  }

  /** When the scan already stands at `a`, the kept part `s[a..a]` is empty. Stated over
      abstract strings so that the solver does not unfold `Strip` here. */
  lemma DeleteFirst(s: string, a: nat, x: string, rest: string)
    requires a <= |s| && x == rest
    ensures x == s[a..a] + rest
  {
    assert s[a..a] == [];
  }

  /** Keeping `s[k]` in front of a result that keeps `s[k + 1..a]`; stated over abstract
      strings so that the solver does not unfold `Strip` here. */
  lemma KeepOne(s: string, k: nat, a: nat, x: string, y: string, rest: string)
    requires k < a <= |s|
    requires x == [s[k]] + y && y == s[k + 1..a] + rest
    ensures x == s[k..a] + rest
  {
    assert [s[k]] + s[k + 1..a] == s[k..a];
  }

  /** A non-empty match at the front is deleted. */
  lemma StripMatchHead(s: string, url: string, m: nat)
    requires MatchEnd(s, url) == Some(m) && m > 0
    ensures m <= |s| && Strip(s, url) == Strip(s[m..], url)
  {
  }

  /** Without a match at the front the first character is kept. */
  lemma StripNoMatchHead(s: string, url: string)
    requires s != [] && MatchEnd(s, url).None?
    ensures Strip(s, url) == [s[0]] + Strip(s[1..], url)
  {
  }

  /** The first occurrence of the literal, at `p`, is deleted together with the whitespace
      run `s[a..p]` before it and the run `s[p + |url|..e]` after it; the text before `a`
      is kept and the scan resumes at `e`. */
  lemma StripFirst(s: string, url: string, a: nat, p: nat, e: nat)
    requires url != [] && !IsSpace(url[0]) && a <= p && StartsAt(s, url, p)
    requires forall j :: 0 <= j < p ==> !StartsAt(s, url, j)
    requires a == 0 || !IsSpace(s[a - 1])
    requires p + |url| <= e <= |s|
    requires AllSpace(s[a..p]) && AllSpace(s[p + |url|..e])
    requires e == |s| || !IsSpace(s[e])
    ensures Strip(s, url) == s[..a] + Strip(s[e..], url)
  {
    StripKeep(s, url, 0, a, p);
    StripDelete(s, url, a, p, e);
    Rejoin(s, a, Strip(s, url), Strip(s[a..], url), Strip(s[e..], url));
  }

  /** The kept prefix, written `s[0..a]` by `StripKeep`, is `s[..a]`. */
  lemma Rejoin(s: string, a: nat, x: string, y: string, rest: string)
    requires a <= |s|
    requires x == s[0..a] + y && y == rest
    ensures x == s[..a] + rest
  {
  }
}
