/** The parsed table that every stage of the assistant works on: a pandas
    DataFrame as the CSV reader hands it over, seen as column names, one
    dtype per column and equal-length columns of optional values. */
module Frame {

  datatype Option<T> = None | Some(value: T)

  /** One cell. `Missing` is pandas' NaN / None marker. */
  datatype Cell = Missing | Num(n: real) | Text(s: string) | Flag(b: bool)

  /** The dtypes the CSV reader infers for a column. */
  datatype DType = Int64 | Float64 | Bool | Object

  /** `select_dtypes(include=["number"])`: integers and floats, not bools. */
  predicate IsNumber(d: DType)
  {
    d == Int64 || d == Float64
  }

  /** Column-major table: `cols[j]` holds the values of column `names[j]`. */
  datatype Table = Table(names: seq<string>, dtypes: seq<DType>, cols: seq<seq<Cell>>, rows: nat)

  /** Shape invariant of a DataFrame: one name and one dtype per column, every
      column `rows` long, and a numeric column holds numbers or missing values only. */
  predicate WellFormed(t: Table)
  {
    && |t.dtypes| == |t.names|
    && |t.cols| == |t.names|
    && (forall j :: 0 <= j < |t.cols| ==> |t.cols[j]| == t.rows)
    && (forall j, i :: 0 <= j < |t.cols| && IsNumber(t.dtypes[j]) && 0 <= i < |t.cols[j]| ==>
          t.cols[j][i].Missing? || t.cols[j][i].Num?)
  }

  predicate Distinct<T(==)>(s: seq<T>)
  {
    forall i, j :: 0 <= i < j < |s| ==> s[i] != s[j]
  }
}
