/** Win detection on a serialised turn: the turn ends the match when its text contains "win". */
module TurnText {

  const WIN_MARKER: string := "win"

  /** `w` occurs in `s` starting at position `i`. */
  predicate OccursAt(s: string, w: string, i: nat)
  {
    i + |w| <= |s| && s[i..i + |w|] == w
  }

  /** Substring containment, `w in s` on Python strings. */
  function Contains(s: string, w: string): (r: bool)
    ensures r <==> exists i: nat :: OccursAt(s, w, i)
    decreases |s|
  {
    if |s| < |w| then
      false
    else if s[..|w|] == w then
      assert OccursAt(s, w, 0);
      true
    else
      var r := Contains(s[1..], w);
      if r then
        var i: nat :| OccursAt(s[1..], w, i);
        assert s[1..][i..i + |w|] == s[i + 1..i + 1 + |w|];
        assert OccursAt(s, w, i + 1);
        true
      else
        forall i: nat | 1 <= i + |w| <= |s|
          ensures OccursAt(s, w, i) == (i > 0 && OccursAt(s[1..], w, i - 1))
        {
          if i > 0 {
            assert s[1..][i - 1..i - 1 + |w|] == s[i..i + |w|];
          }
        }
        false
  }

  /** The win test of a turn. */
  predicate IsWinningTurn(serializedTurn: string)
  {
    Contains(serializedTurn, WIN_MARKER)
  }

  /** A turn that carries the marker anywhere, even inside an unrelated word, ends the match. */
  lemma {:induction false} MarkerAnywhereWins(prefix: string, suffix: string)
    ensures IsWinningTurn(prefix + WIN_MARKER + suffix)
  {
    var s := prefix + WIN_MARKER + suffix;
    assert s[|prefix|..|prefix| + |WIN_MARKER|] == WIN_MARKER;
    assert OccursAt(s, WIN_MARKER, |prefix|);
  }

  /** A turn in which the marker's first letter never appears never ends the match. */
  lemma NoMarkerLetterNeverWins(serializedTurn: string)
    requires WIN_MARKER[0] !in serializedTurn
    ensures !IsWinningTurn(serializedTurn)
  {
    forall i: nat
      ensures !OccursAt(serializedTurn, WIN_MARKER, i)
    {
      if i + |WIN_MARKER| <= |serializedTurn| {
        assert serializedTurn[i..i + |WIN_MARKER|][0] == serializedTurn[i];
        assert serializedTurn[i] in serializedTurn;
      }
    }
  }
}
