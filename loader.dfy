/**
 * The one step of loading that changes the table: the User_Score column is
 * overwritten with its numeric coercion, where text that is not a number
 * (the dataset's "tbd") becomes missing instead of raising an error.
 */
module Loader {
  import opened Wrappers
  import opened Numerals
  import opened Games

  function CoerceScore(c: ScoreCell): (r: ScoreCell)
    ensures !r.Text?
    ensures c.Text? ==> (r.Number? <==> ParseDecimal(c.raw).Some?)
    ensures c.Text? && r.Number? ==> ParseDecimal(c.raw) == Some(r.value)
    ensures !c.Text? ==> r == c
  {
    match c
    case Text(s) =>
      (match ParseDecimal(s)
       case Some(d) => Number(d)
       case None => Missing)
    case _ => c
  }

  /** No cell of the User_Score column still holds raw text. */
  predicate Coerced(t: Table)
  {
    forall i :: 0 <= i < |t| ==> !t[i].userScore.Text?
  }

  function CoerceRow(r: Record): (c: Record)
    ensures c.userScore == CoerceScore(r.userScore)
    ensures c == r.(userScore := c.userScore)
  {
    r.(userScore := CoerceScore(r.userScore))
  }

  /** The table after the column overwrite, as a value. */
  function CoerceTable(t: Table): (c: Table)
    ensures |c| == |t| && Coerced(c)
    ensures forall i :: 0 <= i < |t| ==> c[i] == t[i].(userScore := CoerceScore(t[i].userScore))
  {
    seq(|t|, i requires 0 <= i < |t| => CoerceRow(t[i]))
  }

  /** Coercing an already coerced column changes nothing. */
  lemma CoerceIdempotent(t: Table)
    ensures CoerceTable(CoerceTable(t)) == CoerceTable(t)
  {
    var once := CoerceTable(t);
    assert forall i :: 0 <= i < |once| ==> CoerceRow(once[i]) == once[i];
  }

  /** A "tbd" score loads as missing, and the rest of its row is kept. */
  lemma TbdLoadsAsMissing(r: Record)
    requires r.userScore == Text("tbd")
    ensures CoerceRow(r) == r.(userScore := Missing)
  {
    TbdIsNotANumber();
  }

  /** Overwrites the User_Score column of the loaded rows in place. */
  method CoerceUserScores(rows: array<Record>)
    modifies rows
    ensures rows[..] == CoerceTable(old(rows[..]))
  {
    for i := 0 to rows.Length
      invariant forall k :: 0 <= k < i ==> rows[k] == CoerceRow(old(rows[k]))
      invariant forall k :: i <= k < rows.Length ==> rows[k] == old(rows[k])
    {
      rows[i] := CoerceRow(rows[i]);
    }
  }
}
