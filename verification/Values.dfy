/** JSON-like values, records of values, and the exact arithmetic behind currency totals. */
module Values {

  datatype Option<+T> = None | Some(value: T)

  datatype Result<+T, +E> = Ok(value: T) | Err(error: E)

  /** A JSON value. Numbers are exact reals. */
  datatype Value =
    | Null
    | Bool(b: bool)
    | Num(n: real)
    | Text(s: string)
    | List(items: seq<Value>)
    | Object(fields: Record)

  /** A dictionary with string keys: task outputs, resolved inputs, a table row, instance metadata. */
  type Record = map<string, Value>

  type Id(==, !new)

  /** `record.get(key)`: an absent key reads as null. */
  function Get(record: Record, key: string): Value {
    if key in record then record[key] else Null
  }

  /** The nearest integer, ties going to the even one. */
  function Nearest(y: real): (k: int)
    ensures -0.5 <= k as real - y <= 0.5
    ensures y == y.Floor as real ==> k as real == y
  {
    var below := y.Floor;
    var rest := y - below as real;
    if rest < 0.5 || (rest == 0.5 && below % 2 == 0) then below else below + 1
  }

  /** Rounding to two decimal places, on exact reals. */
  function Round2(x: real): real {
    Nearest(x * 100.0) as real / 100.0
  }

  lemma Round2Idempotent(x: real)
    ensures Round2(Round2(x)) == Round2(x)
  {
    var k := Nearest(x * 100.0);
    assert Round2(x) * 100.0 == k as real;
    assert (k as real).Floor == k;
  }

  /** The sum of all values of a map; the choice of order is immaterial (see `SumSplit`). */
  ghost function Sum(m: map<Id, real>): real {
    if m == map[] then 0.0
    else
      var k :| k in m;
      m[k] + Sum(m - {k})
  }

  /** Any key may be taken out first. */
  lemma {:induction false} SumSplit(m: map<Id, real>, k: Id)
    requires k in m
    ensures Sum(m) == m[k] + Sum(m - {k})
    decreases |m|
  {
    var j :| j in m && Sum(m) == m[j] + Sum(m - {j});
    if j != k {
      SumSplit(m - {j}, k);
      SumSplit(m - {k}, j);
      assert m - {j} - {k} == m - {k} - {j};
    }
  }
}
