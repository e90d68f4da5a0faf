/** `ORDER BY ... DESC`, `LIMIT ... OFFSET ...` and the page count the
    listing handlers compute with `Math.ceil(total / limit)`. */
module Paging {
  import opened Schema

  predicate SortedDesc<T>(rows: seq<T>, key: T -> int) {
    forall i, j | 0 <= i < j < |rows| :: key(rows[i]) >= key(rows[j])
  }

  lemma HeadIsMax<T>(rows: seq<T>, key: T -> int)
    requires SortedDesc(rows, key) && rows != []
    ensures forall y | y in rows :: key(y) <= key(rows[0])
  {
    forall y | y in rows ensures key(y) <= key(rows[0]) {
      var j :| 0 <= j < |rows| && rows[j] == y;
      assert j == 0 || key(rows[0]) >= key(rows[j]);
    }
  }

  lemma ConsSorted<T>(x: T, rows: seq<T>, key: T -> int)
    requires SortedDesc(rows, key)
    requires forall y | y in rows :: key(y) <= key(x)
    ensures SortedDesc([x] + rows, key)
  {
    var r := [x] + rows;
    forall i, j | 0 <= i < j < |r| ensures key(r[i]) >= key(r[j]) {
      assert r[j] == rows[j - 1];
      if i == 0 {
        assert rows[j - 1] in rows;
      } else {
        assert r[i] == rows[i - 1];
      }
    }
  }

  /** Places `x` before the first row whose key is not above its own. */
  function InsertDesc<T(!new)>(x: T, rows: seq<T>, key: T -> int): (r: seq<T>)
    requires SortedDesc(rows, key)
    ensures SortedDesc(r, key)
    ensures multiset(r) == multiset(rows) + multiset{x}
  {
    if rows == [] || key(x) >= key(rows[0]) then
      if rows != [] then HeadIsMax(rows, key); ConsSorted(x, rows, key); [x] + rows
      else ConsSorted(x, rows, key); [x] + rows
    else
      var tail := InsertDesc(x, rows[1..], key);
      assert rows == [rows[0]] + rows[1..];
      assert SortedDesc(rows[1..], key);
      HeadIsMax(rows, key);
      assert forall y | y in tail :: key(y) <= key(rows[0]) by {
        forall y | y in tail ensures key(y) <= key(rows[0]) {
          assert y in multiset(tail);
          assert y == x || y in multiset(rows[1..]);
        }
      }
      ConsSorted(rows[0], tail, key);
      [rows[0]] + tail
  }

  /** A stable sort by descending key: rows with equal keys keep table order. */
  function SortDesc<T(!new)>(rows: seq<T>, key: T -> int): (r: seq<T>)
    ensures SortedDesc(r, key)
    ensures multiset(r) == multiset(rows)
  {
    if rows == [] then []
    else
      assert rows == [rows[0]] + rows[1..];
      InsertDesc(rows[0], SortDesc(rows[1..], key), key)
  }

  function Start(offset: int): nat {
    if offset < 0 then 0 else offset
  }

  /** SQLite's `LIMIT limit OFFSET offset`: a negative offset counts as zero
      and a negative limit means no limit. */
  function Window<T>(rows: seq<T>, limit: int, offset: int): (r: seq<T>)
    ensures |r| <= |rows|
    ensures limit >= 0 ==> |r| <= limit
    ensures forall k | 0 <= k < |r| :: Start(offset) + k < |rows| && r[k] == rows[Start(offset) + k]
    ensures Start(offset) < |rows| && limit != 0 ==> r != []
  {
    var start := Start(offset);
    if start >= |rows| then []
    else if limit < 0 || |rows| - start <= limit then rows[start..]
    else rows[start..start + limit]
  }

  /** `(page - 1) * limit` */
  function Offset(page: int, limit: int): int {
    (page - 1) * limit
  }

  /** `Math.ceil(total / limit)` as the JSON body carries it: the quotient
      rounded up, or None for the `null` that the `Infinity` or `NaN` of a
      zero limit becomes. */
  function TotalPages(total: nat, limit: int): (r: Option<int>)
    ensures r.None? <==> limit == 0
    ensures limit > 0 ==> (r.value - 1) * limit < total <= r.value * limit
    ensures limit < 0 ==> r.value * limit <= total < (r.value - 1) * limit
  {
    if limit > 0 then
      var q := (total + limit - 1) / limit;
      DivBounds(total + limit - 1, limit);
      Some(q)
    else if limit == 0 then None
    else
      var q := total / -limit;
      DivBounds(total, -limit);
      Some(-q)
  }

  lemma DivBounds(a: int, b: int)
    requires a >= 0 && b > 0
    ensures (a / b) * b <= a < (a / b) * b + b
  {
  }

  lemma {:induction false} PageOfRow<T>(rows: seq<T>, limit: int, k: nat)
    requires limit > 0 && k < |rows|
    ensures var page := k / limit + 1;
            var w := Window(rows, limit, Offset(page, limit));
            k % limit < |w| && w[k % limit] == rows[k]
  {
    var q, m := k / limit, k % limit;
    DivMod(k, limit);
    var off := Offset(q + 1, limit);
    assert off == q * limit;
    assert q >= 0;
    assert off >= 0 by { MulMono(0, q, limit); }
    assert Start(off) == off && off + m == k;
    var w := Window(rows, limit, off);
    assert |w| == if |rows| - off <= limit then |rows| - off else limit;
  }

  lemma DivMod(a: int, b: int)
    requires a >= 0 && b > 0
    ensures a == (a / b) * b + a % b && 0 <= a % b < b
  {
  }

  /** With a positive limit, exactly the pages 1 to `TotalPages` are non-empty,
      every page but the last is full, and each row sits on the page its index
      gives. */
  lemma {:induction false} Pagination<T>(rows: seq<T>, limit: int, page: int)
    requires limit > 0 && page >= 1
    ensures var w := Window(rows, limit, Offset(page, limit));
            && (w != [] <==> page <= TotalPages(|rows|, limit).value)
            && (page < TotalPages(|rows|, limit).value ==> |w| == limit)
            && (forall k | 0 <= k < |w| :: w[k] == rows[(page - 1) * limit + k])
  {
    var tp := TotalPages(|rows|, limit).value;
    var off := Offset(page, limit);
    assert off >= 0;
    if page <= tp {
      assert (page - 1) * limit <= (tp - 1) * limit by {
        MulMono(page - 1, tp - 1, limit);
      }
    } else {
      assert tp * limit <= (page - 1) * limit by {
        MulMono(tp, page - 1, limit);
      }
    }
    if page < tp {
      assert page * limit <= (tp - 1) * limit by {
        MulMono(page, tp - 1, limit);
      }
      assert off + limit == page * limit;
    }
  }

  lemma MulMono(a: int, b: int, c: int)
    requires a <= b && c >= 0
    ensures a * c <= b * c
  {
  }
}
