/** The JavaScript string primitives the tool relies on: `startsWith`,
    `split` on a one-character separator, `Array.prototype.join` and
    `replaceAll` with a string pattern and a string replacement.
 */
module Strings {

  /** `s.startsWith(prefix)` */
  predicate StartsWith(s: string, prefix: string) {
    |prefix| <= |s| && s[..|prefix|] == prefix
  }

  /** `s.endsWith(suffix)` */
  predicate EndsWith(s: string, suffix: string) {
    |suffix| <= |s| && s[|s| - |suffix|..] == suffix
  }

  lemma PrefixOfConcat(a: string, b: string)
    ensures StartsWith(a + b, a)
  {
    assert (a + b)[..|a|] == a;
  }

  lemma SuffixOfConcat(a: string, b: string)
    ensures EndsWith(a + b, b)
  {
    assert (a + b)[|a|..] == b;
  }

  /** A string built from five parts starts with the first (and with the
      first two) and ends with the last three. */
  lemma Frame(head: string, middle: string, tail: string, a: string, b: string)
    ensures StartsWith(head + middle + tail + a + b, head)
    ensures StartsWith(head + middle + tail + a + b, head + middle)
    ensures EndsWith(head + middle + tail + a + b, tail + a + b)
  {
    var r := head + middle + tail + a + b;
    assert r == head + (middle + tail + a + b);
    PrefixOfConcat(head, middle + tail + a + b);
    assert r == (head + middle) + (tail + a + b);
    PrefixOfConcat(head + middle, tail + a + b);
    SuffixOfConcat(head + middle, tail + a + b);
  }

  /** `parts.join(sep)` */
  function Join(parts: seq<string>, sep: string): string {
    if |parts| == 0 then ""
    else if |parts| == 1 then parts[0]
    else parts[0] + sep + Join(parts[1..], sep)
  }

  /** `s.split(sep)` for a one-character separator: the maximal pieces
      between separators, including the empty ones at either end. */
  function Split(s: string, sep: char): (r: seq<string>)
    ensures |r| >= 1
    ensures forall i :: 0 <= i < |r| ==> sep !in r[i]
    decreases |s|
  {
    if |s| == 0 then [""]
    else
      var rest := Split(s[1..], sep);
      if s[0] == sep then [""] + rest
      else [[s[0]] + rest[0]] + rest[1..]
  }

  lemma JoinCons(head: string, rest: seq<string>, sep: string)
    requires |rest| >= 1
    ensures Join([head] + rest, sep) == head + sep + Join(rest, sep)
  {
    assert ([head] + rest)[1..] == rest;
  }

  lemma JoinExtendHead(c: char, rest: seq<string>, sep: string)
    requires |rest| >= 1
    ensures Join([[c] + rest[0]] + rest[1..], sep) == [c] + Join(rest, sep)
  {
    if |rest| == 1 {
      assert [[c] + rest[0]] + rest[1..] == [[c] + rest[0]];
    } else {
      JoinCons([c] + rest[0], rest[1..], sep);
      JoinCons(rest[0], rest[1..], sep);
      assert rest == [rest[0]] + rest[1..];
    }
  }

  /** Joining the pieces of a split with the separator gives back the string. */
  lemma {:induction false} JoinSplit(s: string, sep: char)
    ensures Join(Split(s, sep), [sep]) == s
    decreases |s|
  {
    if |s| > 0 {
      var rest := Split(s[1..], sep);
      JoinSplit(s[1..], sep);
      assert s == [s[0]] + s[1..];
      if s[0] == sep {
        JoinCons("", rest, [sep]);
      } else {
        JoinExtendHead(s[0], rest, [sep]);
      }
    }
  }

  lemma {:induction false} SplitSepFree(a: string, b: string, sep: char)
    requires sep !in a
    ensures Split(a + b, sep) == [a + Split(b, sep)[0]] + Split(b, sep)[1..]
    decreases |a|
  {
    if |a| == 0 {
      var r := Split(b, sep);
      assert a + b == b;
      assert a + r[0] == r[0];
      assert [r[0]] + r[1..] == r;
    } else {
      assert (a + b)[0] == a[0];
      assert (a + b)[1..] == a[1..] + b;
      SplitSepFree(a[1..], b, sep);
      assert [a[0]] + (a[1..] + Split(b, sep)[0]) == a + Split(b, sep)[0];
    }
  }

  /** Splitting a join of separator-free pieces gives back the pieces. */
  lemma {:induction false} SplitJoin(parts: seq<string>, sep: char)
    requires |parts| >= 1
    requires forall i :: 0 <= i < |parts| ==> sep !in parts[i]
    ensures Split(Join(parts, [sep]), sep) == parts
    decreases |parts|
  {
    if |parts| == 1 {
      SplitSepFree(parts[0], "", sep);
      assert parts[0] + "" == parts[0];
    } else {
      var rest := parts[1..];
      SplitJoin(rest, sep);
      JoinCons(parts[0], rest, [sep]);
      assert parts == [parts[0]] + rest;
      var tail := Join(rest, [sep]);
      assert ([sep] + tail)[1..] == tail;
      var x := Split([sep] + tail, sep);
      assert x == [""] + rest;
      assert x[0] == "" && x[1..] == rest;
      SplitSepFree(parts[0], [sep] + tail, sep);
      assert parts[0] + x[0] == parts[0];
      assert parts[0] + [sep] + tail == parts[0] + ([sep] + tail);
    }
  }

  /** An occurrence of `pat` starts at index `i` of `s`. */
  predicate MatchAt(s: string, pat: string, i: nat) {
    i + |pat| <= |s| && s[i..i + |pat|] == pat
  }

  /** The replacement text for the match `s[start..end]` (GetSubstitution of
      ECMA-262 for a string search value, which has no capture groups):
      `$$` is a dollar sign, `$&` the match, `` $` `` the text before it,
      `$'` the text after it; any other `$` stands for itself. */
  function Substitution(rep: string, s: string, start: nat, end: nat): string
    requires start <= end <= |s|
    decreases |rep|
  {
    if |rep| == 0 then ""
    else if |rep| >= 2 && rep[0] == '$' && rep[1] == '$' then "$" + Substitution(rep[2..], s, start, end)
    else if |rep| >= 2 && rep[0] == '$' && rep[1] == '&' then s[start..end] + Substitution(rep[2..], s, start, end)
    else if |rep| >= 2 && rep[0] == '$' && rep[1] == '`' then s[..start] + Substitution(rep[2..], s, start, end)
    else if |rep| >= 2 && rep[0] == '$' && rep[1] == '\'' then s[end..] + Substitution(rep[2..], s, start, end)
    else [rep[0]] + Substitution(rep[1..], s, start, end)
  }

  /** A replacement without a dollar sign is inserted literally. */
  lemma {:induction false} SubstitutionLiteral(rep: string, s: string, start: nat, end: nat)
    requires start <= end <= |s|
    requires '$' !in rep
    ensures Substitution(rep, s, start, end) == rep
    decreases |rep|
  {
    if |rep| > 0 {
      assert rep[0] in rep;
      assert forall c :: c in rep[1..] ==> c in rep;
      SubstitutionLiteral(rep[1..], s, start, end);
      assert rep == [rep[0]] + rep[1..];
    }
  }

  /** `s.replaceAll(pat, rep)` scanning from index `i`: matches are found left
      to right in the original string and do not overlap. */
  function ReplaceFrom(s: string, pat: string, rep: string, i: nat): string
    requires |pat| > 0 && i <= |s|
    decreases |s| - i
  {
    if i + |pat| > |s| then s[i..]
    else if s[i..i + |pat|] == pat then Substitution(rep, s, i, i + |pat|) + ReplaceFrom(s, pat, rep, i + |pat|)
    else [s[i]] + ReplaceFrom(s, pat, rep, i + 1)
  }

  /** `s.replaceAll(pat, rep)` for a non-empty string pattern. */
  function ReplaceAll(s: string, pat: string, rep: string): string
    requires |pat| > 0
  {
    ReplaceFrom(s, pat, rep, 0)
  }

  /** The pieces of `s[start..]` left between the occurrences of `pat` that
      `replaceAll` finds, when the current piece began at `start` and the
      scan has reached `i`. */
  function PiecesFrom(s: string, pat: string, start: nat, i: nat): (r: seq<string>)
    requires |pat| > 0 && start <= i <= |s|
    ensures |r| >= 1
    decreases |s| - i
  {
    if i + |pat| > |s| then [s[start..]]
    else if s[i..i + |pat|] == pat then [s[start..i]] + PiecesFrom(s, pat, i + |pat|, i + |pat|)
    else PiecesFrom(s, pat, start, i + 1)
  }

  /** The text of `s` between the occurrences of `pat` that `replaceAll` replaces. */
  function Pieces(s: string, pat: string): seq<string>
    requires |pat| > 0
  {
    PiecesFrom(s, pat, 0, 0)
  }

  /** Every piece ends at the first occurrence of `pat` that begins in it:
      none begins earlier (counting the one that follows the piece), and
      none begins in the last piece at all. */
  predicate Leftmost(pieces: seq<string>, pat: string) {
    && |pieces| >= 1
    && (forall k, j :: 0 <= k < |pieces| - 1 && 0 <= j < |pieces[k]| ==> !MatchAt(pieces[k] + pat, pat, j))
    && NoMatch(pieces[|pieces| - 1], pat)
  }

  /** No occurrence of `pat` in `s`. */
  predicate NoMatch(s: string, pat: string) {
    forall j :: 0 <= j < |s| ==> !MatchAt(s, pat, j)
  }

  lemma {:induction false} JoinPiecesFrom(s: string, pat: string, start: nat, i: nat)
    requires |pat| > 0 && start <= i <= |s|
    ensures Join(PiecesFrom(s, pat, start, i), pat) == s[start..]
    decreases |s| - i
  {
    if i + |pat| > |s| {
    } else if s[i..i + |pat|] == pat {
      JoinPiecesFrom(s, pat, i + |pat|, i + |pat|);
      JoinPiecesStep(s, pat, start, i);
    } else {
      JoinPiecesFrom(s, pat, start, i + 1);
    }
  }

  lemma JoinPiecesStep(s: string, pat: string, start: nat, i: nat)
    requires start <= i && i + |pat| <= |s| && s[i..i + |pat|] == pat && |pat| > 0
    requires Join(PiecesFrom(s, pat, i + |pat|, i + |pat|), pat) == s[i + |pat|..]
    ensures Join(PiecesFrom(s, pat, start, i), pat) == s[start..]
  {
    var rest := PiecesFrom(s, pat, i + |pat|, i + |pat|);
    assert PiecesFrom(s, pat, start, i) == [s[start..i]] + rest;
    JoinCons(s[start..i], rest, pat);
    assert s[start..] == s[start..i] + s[i..i + |pat|] + s[i + |pat|..];
  }

  /** The pieces joined with the pattern give back the whole string. */
  lemma JoinPieces(s: string, pat: string)
    requires |pat| > 0
    ensures Join(Pieces(s, pat), pat) == s
  {
    JoinPiecesFrom(s, pat, 0, 0);
  }

  lemma ReplaceFromAtMatch(s: string, pat: string, rep: string, i: nat)
    requires |pat| > 0 && i + |pat| <= |s| && s[i..i + |pat|] == pat
    requires '$' !in rep
    ensures ReplaceFrom(s, pat, rep, i) == rep + ReplaceFrom(s, pat, rep, i + |pat|)
  {
    SubstitutionLiteral(rep, s, i, i + |pat|);
  }

  lemma ReplaceJoinStepMatch(s: string, pat: string, rep: string, start: nat, i: nat)
    requires |pat| > 0 && start <= i && i + |pat| <= |s| && s[i..i + |pat|] == pat
    requires '$' !in rep
    requires s[i + |pat|..i + |pat|] + ReplaceFrom(s, pat, rep, i + |pat|) == Join(PiecesFrom(s, pat, i + |pat|, i + |pat|), rep)
    ensures s[start..i] + ReplaceFrom(s, pat, rep, i) == Join(PiecesFrom(s, pat, start, i), rep)
  {
    var j := i + |pat|;
    assert s[j..j] + ReplaceFrom(s, pat, rep, j) == ReplaceFrom(s, pat, rep, j);
    var rest := PiecesFrom(s, pat, j, j);
    assert PiecesFrom(s, pat, start, i) == [s[start..i]] + rest;
    ReplaceFromAtMatch(s, pat, rep, i);
    JoinCons(s[start..i], rest, rep);
  }

  lemma ReplaceJoinStepOther(s: string, pat: string, rep: string, start: nat, i: nat)
    requires |pat| > 0 && start <= i && i + |pat| <= |s| && s[i..i + |pat|] != pat
    requires s[start..i + 1] + ReplaceFrom(s, pat, rep, i + 1) == Join(PiecesFrom(s, pat, start, i + 1), rep)
    ensures s[start..i] + ReplaceFrom(s, pat, rep, i) == Join(PiecesFrom(s, pat, start, i), rep)
  {
    var tail := ReplaceFrom(s, pat, rep, i + 1);
    assert ReplaceFrom(s, pat, rep, i) == [s[i]] + tail;
    assert PiecesFrom(s, pat, start, i) == PiecesFrom(s, pat, start, i + 1);
    assert s[start..i] + ([s[i]] + tail) == (s[start..i] + [s[i]]) + tail;
    assert s[start..i] + [s[i]] == s[start..i + 1];
  }

  lemma ReplaceJoinStepEnd(s: string, pat: string, rep: string, start: nat, i: nat)
    requires |pat| > 0 && start <= i <= |s| && i + |pat| > |s|
    ensures s[start..i] + ReplaceFrom(s, pat, rep, i) == Join(PiecesFrom(s, pat, start, i), rep)
  {
    assert ReplaceFrom(s, pat, rep, i) == s[i..];
    assert PiecesFrom(s, pat, start, i) == [s[start..]];
    assert s[start..i] + s[i..] == s[start..];
  }

  lemma {:induction false} ReplaceFromIsJoin(s: string, pat: string, rep: string, start: nat, i: nat)
    requires |pat| > 0 && start <= i <= |s|
    requires '$' !in rep
    ensures s[start..i] + ReplaceFrom(s, pat, rep, i) == Join(PiecesFrom(s, pat, start, i), rep)
    decreases |s| - i, 1
  {
    if i + |pat| > |s| {
      ReplaceJoinStepEnd(s, pat, rep, start, i);
    } else if s[i..i + |pat|] == pat {
      ReplaceJoinAtMatch(s, pat, rep, start, i);
    } else {
      ReplaceJoinPastOther(s, pat, rep, start, i);
    }
  }

  /** An occurrence at the scan position ends the current piece. */
  lemma {:induction false} ReplaceJoinAtMatch(s: string, pat: string, rep: string, start: nat, i: nat)
    requires |pat| > 0 && start <= i && i + |pat| <= |s| && s[i..i + |pat|] == pat
    requires '$' !in rep
    ensures s[start..i] + ReplaceFrom(s, pat, rep, i) == Join(PiecesFrom(s, pat, start, i), rep)
    decreases |s| - i, 0
  {
    ReplaceFromIsJoin(s, pat, rep, i + |pat|, i + |pat|);
    ReplaceJoinStepMatch(s, pat, rep, start, i);
  }

  /** Any other character at the scan position stays in the current piece. */
  lemma {:induction false} ReplaceJoinPastOther(s: string, pat: string, rep: string, start: nat, i: nat)
    requires |pat| > 0 && start <= i && i + |pat| <= |s| && s[i..i + |pat|] != pat
    requires '$' !in rep
    ensures s[start..i] + ReplaceFrom(s, pat, rep, i) == Join(PiecesFrom(s, pat, start, i), rep)
    decreases |s| - i, 0
  {
    ReplaceFromIsJoin(s, pat, rep, start, i + 1);
    ReplaceJoinStepOther(s, pat, rep, start, i);
  }

  /** With a dollar-free replacement, `replaceAll` is the pieces joined with
      the replacement: every occurrence found is replaced, nothing else is. */
  lemma ReplaceAllIsJoin(s: string, pat: string, rep: string)
    requires |pat| > 0
    requires '$' !in rep
    ensures ReplaceAll(s, pat, rep) == Join(Pieces(s, pat), rep)
  {
    ReplaceFromIsJoin(s, pat, rep, 0, 0);
  }

  lemma MatchInSuffix(s: string, pat: string, start: nat, j: nat)
    requires start <= |s|
    requires MatchAt(s[start..], pat, j)
    ensures MatchAt(s, pat, start + j)
  {
    assert s[start..][j..j + |pat|] == s[start + j..start + j + |pat|];
  }

  /** The tail of `s` from `start` holds no match when none starts there or later. */
  lemma NoMatchFrom(s: string, pat: string, start: nat)
    requires start <= |s|
    requires forall j :: start <= j < |s| ==> !MatchAt(s, pat, j)
    ensures NoMatch(s[start..], pat)
  {
    forall j | 0 <= j < |s[start..]|
      ensures !MatchAt(s[start..], pat, j)
    {
      if MatchAt(s[start..], pat, j) {
        MatchInSuffix(s, pat, start, j);
      }
    }
  }

  /** The piece before the first match after `start` holds no earlier match,
      even counting the match that follows it. */
  lemma PieceBeforeMatch(s: string, pat: string, start: nat, i: nat)
    requires start <= i && i + |pat| <= |s| && s[i..i + |pat|] == pat
    requires forall j :: start <= j < i ==> !MatchAt(s, pat, j)
    ensures forall j :: 0 <= j < |s[start..i]| ==> !MatchAt(s[start..i] + pat, pat, j)
  {
    var k := i + |pat|;
    var piece := s[start..i];
    assert piece + pat == s[start..k];
    forall j | 0 <= j < |piece|
      ensures !MatchAt(piece + pat, pat, j)
    {
      if MatchAt(piece + pat, pat, j) {
        MatchInSuffix(s[..k], pat, start, j);
        assert s[..k][start..] == s[start..k];
        assert s[..k][start + j..start + j + |pat|] == s[start + j..start + j + |pat|];
        assert MatchAt(s, pat, start + j);
      }
    }
  }

  lemma LeftmostCons(piece: string, rest: seq<string>, pat: string)
    requires Leftmost(rest, pat)
    requires forall j :: 0 <= j < |piece| ==> !MatchAt(piece + pat, pat, j)
    ensures Leftmost([piece] + rest, pat)
  {
    var all := [piece] + rest;
    assert all[0] == piece;
    assert forall m :: 1 <= m < |all| ==> all[m] == rest[m - 1];
  }

  lemma {:induction false} PiecesFromLeftmost(s: string, pat: string, start: nat, i: nat)
    requires |pat| > 0 && start <= i <= |s|
    requires forall j :: start <= j < i ==> !MatchAt(s, pat, j)
    ensures Leftmost(PiecesFrom(s, pat, start, i), pat)
    decreases |s| - i
  {
    if i + |pat| > |s| {
      NoMatchFrom(s, pat, start);
    } else if s[i..i + |pat|] == pat {
      var k := i + |pat|;
      PiecesFromLeftmost(s, pat, k, k);
      PieceBeforeMatch(s, pat, start, i);
      LeftmostCons(s[start..i], PiecesFrom(s, pat, k, k), pat);
    } else {
      assert !MatchAt(s, pat, i);
      PiecesFromLeftmost(s, pat, start, i + 1);
    }
  }

  /** Each piece ends at the leftmost remaining occurrence of the pattern. */
  lemma PiecesLeftmost(s: string, pat: string)
    requires |pat| > 0
    ensures Leftmost(Pieces(s, pat), pat)
  {
    PiecesFromLeftmost(s, pat, 0, 0);
  }

  lemma {:induction false} ReplaceFromNoMatch(s: string, pat: string, rep: string, i: nat)
    requires |pat| > 0 && i <= |s|
    requires forall j :: i <= j < |s| ==> !MatchAt(s, pat, j)
    ensures ReplaceFrom(s, pat, rep, i) == s[i..]
    decreases |s| - i
  {
    if i + |pat| <= |s| {
      assert !MatchAt(s, pat, i);
      ReplaceFromNoMatch(s, pat, rep, i + 1);
      assert s[i..] == [s[i]] + s[i + 1..];
    }
  }

  /** A string without any occurrence of the pattern is left unchanged. */
  lemma ReplaceAllNoMatch(s: string, pat: string, rep: string)
    requires |pat| > 0
    requires NoMatch(s, pat)
    ensures ReplaceAll(s, pat, rep) == s
  {
    ReplaceFromNoMatch(s, pat, rep, 0);
  }
}
