/**
 * The table of video game sales: one Record per row of the dataset.
 * Sales figures are exact whole numbers of hundredths of a million units;
 * every cell that the dataset may leave empty is an Option.
 */
module Games {
  import opened Wrappers
  import opened Numerals

  /** The User_Score cell: raw text as read, a number once coerced, or missing. */
  datatype ScoreCell = Text(raw: string) | Number(value: Decimal) | Missing

  datatype Record = Record(
    name: Option<string>,
    platform: Option<string>,
    year: Option<int>,
    genre: Option<string>,
    publisher: Option<string>,
    globalSales: Option<nat>,
    naSales: Option<nat>,
    euSales: Option<nat>,
    jpSales: Option<nat>,
    otherSales: Option<nat>,
    criticScore: Option<nat>,
    userScore: ScoreCell)

  type Table = seq<Record>

  /** A missing amount adds nothing to a sum. */
  function OrZero(v: Option<nat>): nat
  {
    match v
    case None => 0
    case Some(x) => x
  }

  /** The ranking key of the sales views. */
  function GlobalSalesKey(r: Record): Option<nat>
  {
    r.globalSales
  }

  /** The sum of global sales over the whole table. */
  function TotalGlobalSales(t: Table): nat
  {
    if t == [] then 0 else OrZero(t[0].globalSales) + TotalGlobalSales(t[1..])
  }

  /** One column of a table: f of every row, in row order. */
  function Column<T, U>(s: seq<T>, f: T -> U): (c: seq<U>)
    ensures |c| == |s| && forall i :: 0 <= i < |s| ==> c[i] == f(s[i])
  {
    seq(|s|, i requires 0 <= i < |s| => f(s[i]))
  }

  function PlatformOf(r: Record): Option<string>
  {
    r.platform
  }

  function GenreOf(r: Record): Option<string>
  {
    r.genre
  }
}
