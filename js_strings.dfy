/**
 * The JavaScript string operations the path rules rely on, over strings as sequences of characters:
 * `split("/")`, `join("/")`, `indexOf` and `replace` with a string pattern (which replaces the first
 * occurrence only and expands `$` patterns in the replacement, as in section 22.1.3.18.1
 * (GetSubstitution) of ECMA-262, 2022 edition).
 */
module JsStrings {
  import opened Wrappers

  type Str = seq<char>

  const Slash: char := '/'

  /** `s.split("/")`: the pieces between slashes; never empty, and `""` gives `[""]`. */
  function Split(s: Str): (segs: seq<Str>)
    ensures |segs| >= 1
    ensures forall i :: 0 <= i < |segs| ==> Slash !in segs[i]
  {
    if s == [] then [[]]
    else if s[0] == Slash then [[]] + Split(s[1..])
    else PrependToFirst(s[0], Split(s[1..]))
  }

  /** Puts `c` in front of the first piece. */
  function PrependToFirst(c: char, segs: seq<Str>): (r: seq<Str>)
    requires |segs| >= 1
  {
    [[c] + segs[0]] + segs[1..]
  }

  /** `segs.join("/")`: joining n slash-free segments puts exactly n - 1 slashes between them. */
  function Join(segs: seq<Str>): (s: Str)
    ensures |segs| >= 1 && (forall i :: 0 <= i < |segs| ==> Slash !in segs[i]) ==> SlashCount(s) == |segs| - 1
  {
    if segs == [] then []
    else if |segs| == 1 then SlashFree(segs[0]); segs[0]
    else
      SlashFree(segs[0]);
      SlashCountAppend(segs[0], [Slash]);
      SlashCountAppend(segs[0] + [Slash], Join(segs[1..]));
      segs[0] + [Slash] + Join(segs[1..])
  }

  /** The number of slashes in `s`. */
  function SlashCount(s: Str): nat
  {
    if s == [] then 0 else (if s[0] == Slash then 1 else 0) + SlashCount(s[1..])
  }

  /** Slashes of a concatenation add up. */
  lemma {:induction false} SlashCountAppend(a: Str, b: Str)
    ensures SlashCount(a + b) == SlashCount(a) + SlashCount(b)
  {
    if a != [] {
      assert (a + b)[0] == a[0] && (a + b)[1..] == a[1..] + b;
      SlashCountAppend(a[1..], b);
    } else {
      assert a + b == b;
    }
  }

  /** A text without a slash counts none. */
  lemma {:induction false} SlashFree(a: Str)
    ensures Slash !in a ==> SlashCount(a) == 0
  {
    if a != [] {
      SlashFree(a[1..]);
    }
  }

  /** Splitting gives one more piece than there are slashes. */
  lemma {:induction false} SplitLength(s: Str)
    ensures |Split(s)| == SlashCount(s) + 1
  {
    if s != [] {
      SplitLength(s[1..]);
    }
  }

  /** Joining the pieces of a split gives the string back. */
  lemma {:induction false} JoinSplit(s: Str)
    ensures Join(Split(s)) == s
  {
    if s != [] {
      var rest := Split(s[1..]);
      JoinSplit(s[1..]);
      if s[0] == Slash {
        assert Split(s) == [[]] + rest;
        if |rest| == 1 {
          assert Join(Split(s)) == [] + [Slash] + rest[0];
        } else {
          assert Join(Split(s)) == [] + [Slash] + Join(rest);
        }
      } else {
        var segs := Split(s);
        assert segs == [[s[0]] + rest[0]] + rest[1..];
        if |rest| == 1 {
          assert Join(segs) == [s[0]] + rest[0];
        } else {
          assert segs[1..] == rest[1..];
          assert Join(rest) == rest[0] + [Slash] + Join(rest[1..]);
          assert Join(segs) == [s[0]] + rest[0] + [Slash] + Join(rest[1..]);
        }
      }
    }
  }

  /** Splitting `a + "/" + b` splits `a` and `b` separately, when `a` has no slash. */
  lemma {:induction false} SplitAtSlash(a: Str, b: Str)
    requires Slash !in a
    ensures Split(a + [Slash] + b) == [a] + Split(b)
  {
    if a == [] {
      assert a + [Slash] + b == [Slash] + b;
      assert ([Slash] + b)[1..] == b;
    } else {
      var s := a + [Slash] + b;
      assert s[0] == a[0] && s[0] != Slash;
      assert s[1..] == a[1..] + [Slash] + b;
      SplitAtSlash(a[1..], b);
      var rest := Split(s[1..]);
      assert rest == [a[1..]] + Split(b);
      assert [s[0]] + rest[0] == a;
      assert rest[1..] == Split(b);
    }
  }

  /** Splitting a string without slashes gives that string alone. */
  lemma {:induction false} SplitNoSlash(a: Str)
    requires Slash !in a
    ensures Split(a) == [a]
  {
    if a != [] {
      assert a[0] in a;
      assert forall c :: c in a[1..] ==> c in a;
      SplitNoSlash(a[1..]);
      assert [a[0]] + a[1..] == a;
    }
  }

  /** Splitting the join of slash-free pieces gives the pieces back. */
  lemma {:induction false} SplitJoin(segs: seq<Str>)
    requires |segs| >= 1
    requires forall i :: 0 <= i < |segs| ==> Slash !in segs[i]
    ensures Split(Join(segs)) == segs
  {
    if |segs| == 1 {
      SplitNoSlash(segs[0]);
    } else {
      SplitJoin(segs[1..]);
      SplitAtSlash(segs[0], Join(segs[1..]));
    }
  }

  /** `pat` occurs in `s` starting at index `i`. */
  predicate OccursAt(s: Str, pat: Str, i: nat)
  {
    i + |pat| <= |s| && s[i..i + |pat|] == pat
  }

  /** `s.indexOf(pat)`: the first index where `pat` occurs, or `None` (JavaScript's -1). */
  function IndexOf(s: Str, pat: Str): (r: Option<nat>)
    ensures r.Some? ==> OccursAt(s, pat, r.value)
    ensures r.Some? ==> forall j :: 0 <= j < r.value ==> !OccursAt(s, pat, j)
    ensures r.None? ==> forall j :: 0 <= j <= |s| ==> !OccursAt(s, pat, j)
  {
    IndexOfFrom(s, pat, 0)
  }

  function IndexOfFrom(s: Str, pat: Str, k: nat): (r: Option<nat>)
    requires k <= |s|
    requires forall j :: 0 <= j < k ==> !OccursAt(s, pat, j)
    ensures r.Some? ==> k <= r.value && OccursAt(s, pat, r.value)
    ensures r.Some? ==> forall j :: 0 <= j < r.value ==> !OccursAt(s, pat, j)
    ensures r.None? ==> forall j :: 0 <= j <= |s| ==> !OccursAt(s, pat, j)
    decreases |s| - k
  {
    if OccursAt(s, pat, k) then Some(k)
    else if k == |s| then None
    else IndexOfFrom(s, pat, k + 1)
  }

  /**
   * The replacement text for a match of the string pattern `matched` at `pos` in `str`
   * (GetSubstitution with no capture groups): `$$` gives `$`, `$&` the match, `` $` `` the text
   * before it, `$'` the text after it; every other character, including any other `$`, is literal.
   */
  function Substitution(rep: Str, matched: Str, str: Str, pos: nat): (r: Str)
    requires pos + |matched| <= |str|
    ensures '$' !in rep ==> r == rep
  {
    if rep == [] then []
    else if rep[0] == '$' && |rep| >= 2 && rep[1] == '$' then "$" + Substitution(rep[2..], matched, str, pos)
    else if rep[0] == '$' && |rep| >= 2 && rep[1] == '&' then matched + Substitution(rep[2..], matched, str, pos)
    else if rep[0] == '$' && |rep| >= 2 && rep[1] == '`' then str[..pos] + Substitution(rep[2..], matched, str, pos)
    else if rep[0] == '$' && |rep| >= 2 && rep[1] == '\'' then str[pos + |matched|..] + Substitution(rep[2..], matched, str, pos)
    else [rep[0]] + Substitution(rep[1..], matched, str, pos)
  }

  /**
   * The four `$` forms of the GetSubstitution table: `$$`, `$&`, `` $` `` and `$'` expand to a
   * dollar sign, the match, the text before it and the text after it.
   */
  lemma SubstitutionForms(t: Str, matched: Str, str: Str, pos: nat)
    requires pos + |matched| <= |str|
    ensures Substitution("$$" + t, matched, str, pos) == "$" + Substitution(t, matched, str, pos)
    ensures Substitution("$&" + t, matched, str, pos) == matched + Substitution(t, matched, str, pos)
    ensures Substitution("$`" + t, matched, str, pos) == str[..pos] + Substitution(t, matched, str, pos)
    ensures Substitution("$'" + t, matched, str, pos) == str[pos + |matched|..] + Substitution(t, matched, str, pos)
  {
    assert ("$$" + t)[2..] == t;
    assert ("$&" + t)[2..] == t;
    assert ("$`" + t)[2..] == t;
    assert ("$'" + t)[2..] == t;
  }

  /** Any other character, including a `$` that starts none of the four forms, is copied. */
  lemma SubstitutionCopies(c: char, t: Str, matched: Str, str: Str, pos: nat)
    requires pos + |matched| <= |str|
    requires c != '$' || t == [] || t[0] !in "$&`'"
    ensures Substitution([c] + t, matched, str, pos) == [c] + Substitution(t, matched, str, pos)
  {
    assert ([c] + t)[0] == c && ([c] + t)[1..] == t;
  }

  /** `s.replace(pat, rep)` with a string `pat`: only the first occurrence is replaced. */
  function ReplaceFirst(s: Str, pat: Str, rep: Str): (r: Str)
    ensures IndexOf(s, pat).None? ==> r == s
    ensures IndexOf(s, pat).Some? ==>
      var i := IndexOf(s, pat).value;
      i + |pat| <= |s| && |s| - |pat| <= |r| &&
      s[..i] <= r && r[|r| - (|s| - i - |pat|)..] == s[i + |pat|..]
  {
    match IndexOf(s, pat)
    case None => s
    case Some(i) => s[..i] + Substitution(rep, pat, s, i) + s[i + |pat|..]
  }

  /**
   * With a `$`-free replacement, the first occurrence of `pat` is replaced by `rep` literally and
   * everything before and after it is kept.
   */
  lemma ReplaceFirstLiteral(s: Str, pat: Str, rep: Str)
    requires '$' !in rep
    ensures IndexOf(s, pat).Some? ==>
      var i := IndexOf(s, pat).value;
      ReplaceFirst(s, pat, rep) == s[..i] + rep + s[i + |pat|..]
  {
  }
}
