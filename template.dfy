/** JavaScript's String.prototype.replace called with a string pattern and a string
    replacement: only the FIRST occurrence of the pattern is replaced, and the
    replacement text is expanded by GetSubstitution (section 22.1.3.19.1 of ECMA-262),
    so "$$", "$&", "$`" and "$'" are special even though nothing is captured. */
module Template {
  import opened Types

  /** `pat` occurs in `s` starting at index j. */
  predicate Occurs(s: string, pat: string, j: nat) {
    j + |pat| <= |s| && s[j..j + |pat|] == pat
  }

  /** String.prototype.indexOf(pat, k): the least j >= k at which pat occurs. */
  function IndexFrom(s: string, pat: string, k: nat): (r: Option<nat>)
    requires k <= |s|
    ensures r.Some? ==> Occurs(s, pat, r.value)
    decreases |s| - k
  {
    if Occurs(s, pat, k) then Some(k)
    else if k == |s| then None
    else IndexFrom(s, pat, k + 1)
  }

  function IndexOf(s: string, pat: string): (r: Option<nat>)
    ensures r.Some? ==> Occurs(s, pat, r.value)
  {
    IndexFrom(s, pat, 0)
  }

  /** indexOf reports the first occurrence at or after k, and reports none only
      when there is none. */
  lemma {:induction false} IndexFromFirst(s: string, pat: string, k: nat)
    requires k <= |s|
    ensures var r := IndexFrom(s, pat, k);
      (r.Some? ==> k <= r.value && Occurs(s, pat, r.value) && forall j :: k <= j < r.value ==> !Occurs(s, pat, j)) &&
      (r.None? ==> forall j :: k <= j <= |s| ==> !Occurs(s, pat, j))
    decreases |s| - k
  {
    if !Occurs(s, pat, k) && k < |s| {
      IndexFromFirst(s, pat, k + 1);
    }
  }

  /** GetSubstitution for a match without capture groups: `matched` is the matched
      text, `before` and `after` what precedes and follows it. A "$" that starts no
      recognised pattern (including "$1" and "$<", since nothing is captured) stays. */
  function Expand(rep: string, matched: string, before: string, after: string): string
    decreases |rep|
  {
    if |rep| == 0 then ""
    else if rep[0] == '$' && |rep| >= 2 && rep[1] == '$' then "$" + Expand(rep[2..], matched, before, after)
    else if rep[0] == '$' && |rep| >= 2 && rep[1] == '&' then matched + Expand(rep[2..], matched, before, after)
    else if rep[0] == '$' && |rep| >= 2 && rep[1] == '`' then before + Expand(rep[2..], matched, before, after)
    else if rep[0] == '$' && |rep| >= 2 && rep[1] == '\'' then after + Expand(rep[2..], matched, before, after)
    else [rep[0]] + Expand(rep[1..], matched, before, after)
  }

  /** s.replace(pat, rep) */
  function ReplaceFirst(s: string, pat: string, rep: string): string {
    match IndexOf(s, pat)
    case None => s
    case Some(i) => s[..i] + Expand(rep, pat, s[..i], s[i + |pat|..]) + s[i + |pat|..]
  }

  /** s.replace(p1, v1).replace(p2, v2)...: each (pattern, value) pair applied, in
      order, to the text the previous replace produced. */
  function ReplaceChain(s: string, subs: seq<(string, string)>): string
    decreases |subs|
  {
    if subs == [] then s
    else ReplaceFirst(ReplaceChain(s, subs[..|subs| - 1]), subs[|subs| - 1].0, subs[|subs| - 1].1)
  }

  lemma ReplaceChain3(s: string, a: (string, string), b: (string, string), c: (string, string))
    ensures ReplaceChain(s, [a, b, c]) == ReplaceFirst(ReplaceFirst(ReplaceFirst(s, a.0, a.1), b.0, b.1), c.0, c.1)
  {
    assert [a, b, c][..2] == [a, b];
    assert [a, b][..1] == [a];
    assert [a][..0] == [];
    assert ReplaceChain(s, [a]) == ReplaceFirst(s, a.0, a.1);
    assert ReplaceChain(s, [a, b]) == ReplaceFirst(ReplaceChain(s, [a]), b.0, b.1);
  }

  predicate Lacks(s: string, c: char) {
    forall i :: 0 <= i < |s| ==> s[i] != c
  }

  /** A replacement without "$" is inserted verbatim. */
  lemma {:induction false} ExpandPlain(rep: string, matched: string, before: string, after: string)
    requires Lacks(rep, '$')
    ensures Expand(rep, matched, before, after) == rep
    decreases |rep|
  {
    if |rep| > 0 {
      ExpandPlain(rep[1..], matched, before, after);
    }
  }

  /** Without an occurrence, replace leaves the string alone. */
  lemma ReplaceAbsent(s: string, pat: string, rep: string)
    requires forall j :: 0 <= j <= |s| ==> !Occurs(s, pat, j)
    ensures ReplaceFirst(s, pat, rep) == s
  {
    IndexFromFirst(s, pat, 0);
  }

  /** When the first occurrence of pat is at i, exactly that occurrence is replaced
      and everything after it, later occurrences included, is kept. */
  lemma ReplaceFirstAt(s: string, pat: string, rep: string, i: nat)
    requires Occurs(s, pat, i) && forall j :: 0 <= j < i ==> !Occurs(s, pat, j)
    ensures ReplaceFirst(s, pat, rep) == s[..i] + Expand(rep, pat, s[..i], s[i + |pat|..]) + s[i + |pat|..]
  {
    IndexFromFirst(s, pat, 0);
    var r := IndexOf(s, pat);
    assert r.None? ==> !Occurs(s, pat, i);
    assert r.Some? && r.value > i ==> !Occurs(s, pat, i);
  }

  /** A pattern that starts with '{' cannot occur before the first '{'. */
  lemma FirstBrace(s: string, pat: string, i: nat)
    requires |pat| > 0 && pat[0] == '{'
    requires Occurs(s, pat, i) && Lacks(s[..i], '{')
    ensures forall j :: 0 <= j < i ==> !Occurs(s, pat, j)
  {
    forall j | 0 <= j < i ensures !Occurs(s, pat, j) {
      assert s[..i][j] == s[j];
    }
  }
}
