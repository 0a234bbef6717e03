/** Values shared by every stage of the timeline pipeline. */
module Common {

  datatype Option<T> = None | Some(value: T)

  /** One cell of the spreadsheet as pandas holds it: either a Python `str`,
      or some other value (NaN for an empty CSV field, a number for a column
      pandas parsed as numeric). `shown` is what `astype(str)` makes of it. */
  datatype Cell = Text(s: string) | NonText(shown: string)

  /** The NaN pandas puts in empty fields and in reindexed columns. */
  const Missing: Cell := NonText("nan")

  /** `str(cell)`, as `astype(str)` and `str(...)` compute it. */
  function AsStr(c: Cell): (r: string)
    ensures c.Text? ==> r == c.s
    ensures c.NonText? ==> r == c.shown
  {
    match c
    case Text(s) => s
    case NonText(shown) => shown
  }

  /** A column made of one value broadcast over `n` rows. */
  function Repeat(x: Cell, n: nat): (r: seq<Cell>)
    ensures |r| == n
    ensures forall i :: 0 <= i < n ==> r[i] == x
  {
    seq(n, _ => x)
  }
}
