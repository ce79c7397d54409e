/**
 Search terms inside ILIKE patterns. Matching follows PostgreSQL: `%` stands for any text, `_` for any one
 character, a backslash makes the next character literal. Case folding is any function on characters.
 */
module LikeEscape {
  import opened Texts

  const PERCENT: CodeUnit := 0x25
  const UNDERSCORE: CodeUnit := 0x5f
  const BACKSLASH: CodeUnit := 0x5c

  type Fold = CodeUnit -> CodeUnit

  predicate Special(u: CodeUnit) {
    u == BACKSLASH || u == PERCENT || u == UNDERSCORE
  }

  /** `escapeLikeTerm` */
  function Escape(term: Text): Text {
    if term == [] then []
    else (if Special(term[0]) then [BACKSLASH, term[0]] else [term[0]]) + Escape(term[1..])
  }

  /** What `contains` hands to the database */
  function Pattern(term: Text): Text {
    [PERCENT] + term + [PERCENT]
  }

  predicate Matches(fold: Fold, p: Text, s: Text)
    decreases |p| + |s|
  {
    if p == [] then s == []
    else if p[0] == '%' as int then Matches(fold, p[1..], s) || (s != [] && Matches(fold, p, s[1..]))
    else if p[0] == '_' as int then s != [] && Matches(fold, p[1..], s[1..])
    else if p[0] == '\\' as int then
      |p| >= 2 && s != [] && fold(p[1]) == fold(s[0]) && Matches(fold, p[2..], s[1..])
    else s != [] && fold(p[0]) == fold(s[0]) && Matches(fold, p[1..], s[1..])
  }

  /** The term stands in s at position i, up to case. */
  predicate OccursAt(fold: Fold, term: Text, s: Text, i: nat) {
    i + |term| <= |s| && forall k | 0 <= k < |term| :: fold(term[k]) == fold(s[i + k])
  }

  ghost predicate Occurs(fold: Fold, term: Text, s: Text) {
    exists i :: OccursAt(fold, term, s, i)
  }

  /** An escaped term matches itself and nothing else, and leaves the rest of the pattern to the rest of the text. */
  lemma {:induction false} EscapedIsLiteral(fold: Fold, term: Text, rest: Text, s: Text)
    ensures Matches(fold, Escape(term) + rest, s) <==>
              OccursAt(fold, term, s, 0) && Matches(fold, rest, s[|term|..])
  {
    if term == [] {
      assert Escape(term) + rest == rest && s[0..] == s;
    } else {
      FirstIsLiteral(fold, term, rest, s);
      hide Matches, Escape;
      if s != [] {
        EscapedIsLiteral(fold, term[1..], rest, s[1..]);
        assert |term| <= |s| ==> s[1..][|term| - 1..] == s[|term|..];
        OccursStep(fold, term, s);
      }
    }
  }

  lemma EscapedUnit(fold: Fold, u: CodeUnit, rest: Text, s: Text)
    ensures Matches(fold, [BACKSLASH, u] + rest, s) <==>
              s != [] && fold(u) == fold(s[0]) && Matches(fold, rest, s[1..])
  {
    assert ([BACKSLASH, u] + rest)[2..] == rest;
  }

  lemma PlainUnit(fold: Fold, u: CodeUnit, rest: Text, s: Text)
    requires !Special(u)
    ensures Matches(fold, [u] + rest, s) <==> s != [] && fold(u) == fold(s[0]) && Matches(fold, rest, s[1..])
  {
    assert ([u] + rest)[1..] == rest;
  }

  /** The first character of an escaped term matches itself, and the rest of the pattern the rest of the text. */
  lemma FirstIsLiteral(fold: Fold, term: Text, rest: Text, s: Text)
    requires term != []
    ensures Matches(fold, Escape(term) + rest, s) <==>
              s != [] && fold(term[0]) == fold(s[0]) && Matches(fold, Escape(term[1..]) + rest, s[1..])
  {
    hide Matches;
    var tail := Escape(term[1..]) + rest;
    if Special(term[0]) {
      assert Escape(term) + rest == [BACKSLASH, term[0]] + tail;
      EscapedUnit(fold, term[0], tail, s);
    } else {
      assert Escape(term) + rest == [term[0]] + tail;
      PlainUnit(fold, term[0], tail, s);
    }
  }

  lemma OccursStep(fold: Fold, term: Text, s: Text)
    requires term != [] && s != []
    ensures OccursAt(fold, term, s, 0) <==> fold(term[0]) == fold(s[0]) && OccursAt(fold, term[1..], s[1..], 0)
  {
    if fold(term[0]) == fold(s[0]) && OccursAt(fold, term[1..], s[1..], 0) {
      forall k | 0 <= k < |term|
        ensures fold(term[k]) == fold(s[k])
      {
        assert k > 0 ==> fold(term[1..][k - 1]) == fold(s[1..][0 + (k - 1)]);
      }
    }
    if OccursAt(fold, term, s, 0) {
      forall k | 0 <= k < |term| - 1
        ensures fold(term[1..][k]) == fold(s[1..][0 + k])
      {
        assert fold(term[k + 1]) == fold(s[0 + (k + 1)]);
      }
    }
  }

  lemma {:induction false} PercentMatchesAll(fold: Fold, s: Text)
    ensures Matches(fold, [PERCENT], s)
  {
    if s == [] {
      assert Matches(fold, [PERCENT][1..], s);
    } else {
      PercentMatchesAll(fold, s[1..]);
    }
  }

  /** A leading `%` lets the rest of the pattern start anywhere. */
  lemma {:induction false} PercentSkips(fold: Fold, rest: Text, s: Text)
    ensures Matches(fold, [PERCENT] + rest, s) <==> exists i :: 0 <= i <= |s| && Matches(fold, rest, s[i..])
  {
    var p := [PERCENT] + rest;
    assert p[1..] == rest;
    if s == [] {
      assert s[0..] == s;
    } else {
      PercentSkips(fold, rest, s[1..]);
      forall i | 0 <= i <= |s|
        ensures i == 0 ==> s[i..] == s
        ensures i > 0 ==> s[i..] == s[1..][i - 1..]
      {
      }
      if exists i :: 0 <= i <= |s| - 1 && Matches(fold, rest, s[1..][i..]) {
        var i :| 0 <= i <= |s| - 1 && Matches(fold, rest, s[1..][i..]);
        assert Matches(fold, rest, s[i + 1..]);
      }
      if Matches(fold, rest, s) {
        assert Matches(fold, rest, s[0..]);
      }
    }
  }

  lemma OccursShifted(fold: Fold, term: Text, s: Text, i: nat)
    requires i <= |s|
    ensures OccursAt(fold, term, s[i..], 0) <==> OccursAt(fold, term, s, i)
  {
    if OccursAt(fold, term, s[i..], 0) {
      forall k | 0 <= k < |term|
        ensures fold(term[k]) == fold(s[i + k])
      {
        assert fold(term[k]) == fold(s[i..][0 + k]);
      }
    }
  }

  /** A search finds exactly the texts that contain the term, whatever characters it is made of. */
  lemma ContainsMeansOccurs(fold: Fold, term: Text, s: Text)
    ensures Matches(fold, Pattern(Escape(term)), s) <==> Occurs(fold, term, s)
  {
    var rest := Escape(term) + [PERCENT];
    assert Pattern(Escape(term)) == [PERCENT] + rest;
    PercentSkips(fold, rest, s);
    forall i | 0 <= i <= |s|
      ensures Matches(fold, rest, s[i..]) <==> OccursAt(fold, term, s, i)
    {
      EscapedIsLiteral(fold, term, [PERCENT], s[i..]);
      if OccursAt(fold, term, s[i..], 0) {
        PercentMatchesAll(fold, s[i..][|term|..]);
      }
      OccursShifted(fold, term, s, i);
    }
  }

  /** How often the three characters stand in a text */
  function Specials(t: Text): nat {
    if t == [] then 0
    else
      var last := t[|t| - 1];
      Specials(t[..|t| - 1]) + if last == '%' as int || last == '_' as int || last == '\\' as int then 1 else 0
  }

  lemma {:induction false} EscapeAppend(term: Text, u: CodeUnit)
    ensures Escape(term + [u]) == Escape(term) + if Special(u) then [BACKSLASH, u] else [u]
  {
    if term == [] {
      assert (term + [u])[1..] == [];
    } else {
      assert (term + [u])[1..] == term[1..] + [u];
      EscapeAppend(term[1..], u);
    }
  }

  /** Nothing but the three characters is escaped. */
  lemma {:induction false} EscapesOnlySpecials(term: Text)
    ensures |Escape(term)| == |term| + Specials(term)
  {
    if term != [] {
      var n := |term| - 1;
      EscapesOnlySpecials(term[..n]);
      EscapeAppend(term[..n], term[n]);
      assert term == term[..n] + [term[n]];
    }
  }

  /** Without escaping, a lone wildcard finds texts that do not contain it. */
  lemma UnescapedFindsTooMuch(fold: Fold, s: Text)
    ensures Matches(fold, Pattern([PERCENT]), s)
    ensures !Occurs(fold, [PERCENT], [])
  {
    PercentMatchesAll(fold, s);
    assert Pattern([PERCENT])[1..] == [PERCENT, PERCENT] && [PERCENT, PERCENT][1..] == [PERCENT];
    assert Matches(fold, [PERCENT, PERCENT], s);
  }
}
