/** Go's `strings.Replace(s, old, new, -1)` on byte strings, and an independent
    description of what it does: the text is cut at the occurrences of `old`
    found scanning left to right, and the pieces are glued back together with
    `new` in place of `old`. */
module Replace {

  predicate OccursAt(s: string, pat: string, i: int)
  {
    0 <= i && i + |pat| <= |s| && s[i..i + |pat|] == pat
  }

  predicate Occurs(s: string, pat: string)
  {
    exists i :: 0 <= i <= |s| && OccursAt(s, pat, i)
  }

  /** No occurrence of `pat` in `t` starts before position `k`. */
  predicate NoMatchBefore(t: string, pat: string, k: int)
  {
    forall j :: 0 <= j < k ==> !OccursAt(t, pat, j)
  }

  /** The pieces joined with `sep` between neighbours. */
  function Join(pieces: seq<string>, sep: string): string
    requires |pieces| >= 1
  {
    if |pieces| == 1 then pieces[0] else pieces[0] + sep + Join(pieces[1..], sep)
  }

  /** `strings.Replace(s, pat, rep, -1)`: at each position either an
      occurrence of `pat` starts there, which is replaced and skipped, or the
      byte is kept and the scan moves on by one. */
  function ReplaceAll(s: string, pat: string, rep: string): string
    requires |pat| > 0
    decreases |s|
  {
    if |s| < |pat| then s
    else if s[..|pat|] == pat then rep + ReplaceAll(s[|pat|..], pat, rep)
    else [s[0]] + ReplaceAll(s[1..], pat, rep)
  }

  /** The text between the occurrences of `pat` that a left-to-right scan
      finds: gluing the pieces back with `pat` gives `s`; no occurrence
      starts inside a piece, even one running on into the following `pat`
      (so each cut is at the leftmost occurrence still available); and the
      last piece holds no occurrence at all. */
  function Split(s: string, pat: string): (pieces: seq<string>)
    requires |pat| > 0
    ensures |pieces| >= 1
    ensures Join(pieces, pat) == s
    ensures forall i :: 0 <= i < |pieces| - 1 ==> NoMatchBefore(pieces[i] + pat, pat, |pieces[i]|)
    ensures !Occurs(pieces[|pieces| - 1], pat)
    decreases |s|
  {
    if |s| < |pat| then
      [s]
    else if s[..|pat|] == pat then
      var rest := Split(s[|pat|..], pat);
      assert s == pat + s[|pat|..];
      assert ([[]] + rest)[1..] == rest;
      [[]] + rest
    else
      var rest := Split(s[1..], pat);
      var first := [s[0]] + rest[0];
      var pieces := [first] + rest[1..];
      assert pieces[1..] == rest[1..];
      SplitHead(s, pat, rest);
      pieces
  }

  /** The inductive step of `Split` when no occurrence starts at `s[0]`. */
  lemma SplitHead(s: string, pat: string, rest: seq<string>)
    requires |pat| > 0 && |s| >= |pat| && s[..|pat|] != pat
    requires |rest| >= 1 && Join(rest, pat) == s[1..]
    requires forall i :: 0 <= i < |rest| - 1 ==> NoMatchBefore(rest[i] + pat, pat, |rest[i]|)
    requires !Occurs(rest[|rest| - 1], pat)
    ensures var pieces := [[s[0]] + rest[0]] + rest[1..];
            && Join(pieces, pat) == s
            && (forall i :: 0 <= i < |pieces| - 1 ==> NoMatchBefore(pieces[i] + pat, pat, |pieces[i]|))
            && !Occurs(pieces[|pieces| - 1], pat)
  {
    SplitHeadJoin(s, pat, rest);
    if |rest| == 1 {
      assert [s[0]] + rest[0] == s;
      ShiftedClean(s, pat, rest[0], |s|);
    } else {
      SplitHeadFirst(s, pat, rest);
    }
  }

  /** Gluing: the first piece takes the byte in front. */
  lemma SplitHeadJoin(s: string, pat: string, rest: seq<string>)
    requires |s| >= 1 && |rest| >= 1 && Join(rest, pat) == s[1..]
    ensures Join([[s[0]] + rest[0]] + rest[1..], pat) == s
  {
    JoinExtendHead(s[0], rest, pat);
  }

  /** With a cut after the first piece: that piece, grown by the byte in
      front, still has no occurrence starting before its end. */
  lemma SplitHeadFirst(s: string, pat: string, rest: seq<string>)
    requires |pat| > 0 && |s| >= |pat| && s[..|pat|] != pat
    requires |rest| >= 2 && Join(rest, pat) == s[1..]
    requires NoMatchBefore(rest[0] + pat, pat, |rest[0]|)
    ensures NoMatchBefore([s[0]] + rest[0] + pat, pat, |rest[0]| + 1)
  {
    var first := [s[0]] + rest[0];
    var t := first + pat;
    assert Join(rest, pat) == rest[0] + pat + Join(rest[1..], pat);
    assert s == t + Join(rest[1..], pat);
    assert t == s[..|t|];
    ShiftedClean(t, pat, rest[0] + pat, |first|);
  }

  /** Prepending one byte that starts no occurrence keeps a text free of
      occurrences starting before `k`. */
  lemma ShiftedClean(t: string, pat: string, tail: string, k: int)
    requires |pat| > 0 && |t| >= |pat| && t[..|pat|] != pat
    requires t[1..] == tail && NoMatchBefore(tail, pat, k - 1)
    ensures NoMatchBefore(t, pat, k)
  {
    forall j | 0 < j < k && OccursAt(t, pat, j)
      ensures false
    {
      assert t[j..j + |pat|] == tail[j - 1..j - 1 + |pat|];
      assert OccursAt(tail, pat, j - 1);
    }
  }

  /** A piece none of whose occurrences start before its end holds no
      occurrence of its own. */
  lemma NoMatchBeforeInPiece(p: string, pat: string)
    requires |pat| > 0 && NoMatchBefore(p + pat, pat, |p|)
    ensures !Occurs(p, pat)
  {
    forall j | OccursAt(p, pat, j)
      ensures false
    {
      assert (p + pat)[j..j + |pat|] == p[j..j + |pat|];
      assert OccursAt(p + pat, pat, j);
    }
  }

  /** Replacing every occurrence is cutting at the occurrences and gluing the
      same pieces back with the replacement: text outside the occurrences is
      carried over unchanged. */
  lemma {:induction false} ReplaceAllIsJoinOfSplit(s: string, pat: string, rep: string)
    requires |pat| > 0
    ensures ReplaceAll(s, pat, rep) == Join(Split(s, pat), rep)
    decreases |s|
  {
    if |s| < |pat| {
    } else if s[..|pat|] == pat {
      var rest := Split(s[|pat|..], pat);
      calc {
        ReplaceAll(s, pat, rep);
        rep + ReplaceAll(s[|pat|..], pat, rep);
      == { ReplaceAllIsJoinOfSplit(s[|pat|..], pat, rep); }
        [] + rep + Join(rest, rep);
      == { assert ([[]] + rest)[1..] == rest; }
        Join([[]] + rest, rep);
      == { assert Split(s, pat) == [[]] + rest; }
        Join(Split(s, pat), rep);
      }
    } else {
      var rest := Split(s[1..], pat);
      calc {
        ReplaceAll(s, pat, rep);
        [s[0]] + ReplaceAll(s[1..], pat, rep);
      == { ReplaceAllIsJoinOfSplit(s[1..], pat, rep); }
        [s[0]] + Join(rest, rep);
      == { JoinExtendHead(s[0], rest, rep); }
        Join([[s[0]] + rest[0]] + rest[1..], rep);
      == { assert Split(s, pat) == [[s[0]] + rest[0]] + rest[1..]; }
        Join(Split(s, pat), rep);
      }
    }
  }

  /** Putting a character in front of the first piece puts it in front of
      the joined text. */
  lemma JoinExtendHead(c: char, pieces: seq<string>, sep: string)
    requires |pieces| >= 1
    ensures Join([[c] + pieces[0]] + pieces[1..], sep) == [c] + Join(pieces, sep)
  {
    var longer := [[c] + pieces[0]] + pieces[1..];
    if |pieces| > 1 {
      assert longer[1..] == pieces[1..];
    }
  }

  /** A split has a cut exactly when the pattern occurs. */
  lemma SplitCutsIffOccurs(s: string, pat: string)
    requires |pat| > 0
    ensures |Split(s, pat)| > 1 <==> Occurs(s, pat)
  {
    var pieces := Split(s, pat);
    if |pieces| > 1 {
      var rest := Join(pieces[1..], pat);
      assert s == pieces[0] + pat + rest;
      assert s[|pieces[0]|..|pieces[0]| + |pat|] == pat;
      assert OccursAt(s, pat, |pieces[0]|);
    }
  }

  /** With no occurrence the text comes back unchanged. */
  lemma ReplaceAbsent(s: string, pat: string, rep: string)
    requires |pat| > 0 && !Occurs(s, pat)
    ensures ReplaceAll(s, pat, rep) == s
  {
    SplitCutsIffOccurs(s, pat);
    ReplaceAllIsJoinOfSplit(s, pat, rep);
  }

  /** Replacing a pattern by itself changes nothing. */
  lemma ReplaceSame(s: string, pat: string)
    requires |pat| > 0
    ensures ReplaceAll(s, pat, pat) == s
  {
    ReplaceAllIsJoinOfSplit(s, pat, pat);
  }

  /** If the text changes at all, the pattern occurs in it. */
  lemma ReplaceChangedOccurs(s: string, pat: string, rep: string)
    requires |pat| > 0 && ReplaceAll(s, pat, rep) != s
    ensures Occurs(s, pat)
  {
    if !Occurs(s, pat) {
      ReplaceAbsent(s, pat, rep);
    }
  }

  /** The scan copies the text before the first occurrence, replaces that
      occurrence, and carries on after it. */
  lemma {:induction false} ReplaceFirstThenRest(a: string, pat: string, b: string, rep: string)
    requires |pat| > 0 && NoMatchBefore(a + pat, pat, |a|)
    ensures ReplaceAll(a + pat + b, pat, rep) == a + rep + ReplaceAll(b, pat, rep)
    decreases |a|
  {
    var s := a + pat + b;
    if |a| == 0 {
      assert s == pat + b;
      assert s[..|pat|] == pat && s[|pat|..] == b;
    } else {
      assert (a + pat)[0..|pat|] == s[..|pat|];
      assert !OccursAt(a + pat, pat, 0);
      NoMatchBeforeTail(a, pat);
      calc {
        ReplaceAll(s, pat, rep);
        [s[0]] + ReplaceAll(s[1..], pat, rep);
      == { assert s[1..] == a[1..] + pat + b; }
        [a[0]] + ReplaceAll(a[1..] + pat + b, pat, rep);
      == { ReplaceFirstThenRest(a[1..], pat, b, rep); }
        [a[0]] + (a[1..] + rep + ReplaceAll(b, pat, rep));
      == { assert a == [a[0]] + a[1..]; }
        a + rep + ReplaceAll(b, pat, rep);
      }
    }
  }

  /** Dropping the first byte keeps a text free of early occurrences. */
  lemma NoMatchBeforeTail(a: string, pat: string)
    requires |a| > 0 && NoMatchBefore(a + pat, pat, |a|)
    ensures NoMatchBefore(a[1..] + pat, pat, |a| - 1)
  {
    forall j | 0 <= j < |a| - 1
      ensures !OccursAt(a[1..] + pat, pat, j)
    {
      assert (a[1..] + pat)[j..j + |pat|] == (a + pat)[j + 1..j + 1 + |pat|];
      assert !OccursAt(a + pat, pat, j + 1);
    }
  }

  /** A text with a single occurrence gets exactly that one replaced. */
  lemma ReplaceSingle(a: string, pat: string, b: string, rep: string)
    requires |pat| > 0 && NoMatchBefore(a + pat, pat, |a|) && !Occurs(b, pat)
    ensures ReplaceAll(a + pat + b, pat, rep) == a + rep + b
  {
    ReplaceFirstThenRest(a, pat, b, rep);
    ReplaceAbsent(b, pat, rep);
  }

  /** No occurrence can start where the pattern's first byte is absent. */
  lemma FirstByteAbsent(t: string, pat: string, k: int)
    requires |pat| > 0 && 0 <= k <= |t| && pat[0] !in t[..k]
    ensures NoMatchBefore(t, pat, k)
  {
    forall j | 0 <= j < k && OccursAt(t, pat, j)
      ensures false
    {
    }
  }

  /** A pattern whose first byte appears only where it occurs once is
      replaced there and nowhere else. */
  lemma ReplaceSingleByFirstByte(a: string, pat: string, b: string, rep: string)
    requires |pat| > 0 && pat[0] !in a && pat[0] !in b
    ensures ReplaceAll(a + pat + b, pat, rep) == a + rep + b
  {
    assert (a + pat)[..|a|] == a;
    FirstByteAbsent(a + pat, pat, |a|);
    assert b[..|b|] == b;
    FirstByteAbsent(b, pat, |b|);
    ReplaceSingle(a, pat, b, rep);
  }
}
