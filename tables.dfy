/**
 * Scans of an integer-keyed table. A `findAll`-style query returns the rows of a
 * table as a list; this model lists them in ascending primary-key order.
 */
module Tables {

  predicate IsLeast(k: int, keys: set<int>) {
    k in keys && forall j :: j in keys ==> k <= j
  }

  /** Every non-empty finite set of keys has a least element. */
  lemma {:induction false} LeastExists(keys: set<int>)
    requires keys != {}
    ensures exists k :: IsLeast(k, keys)
  {
    if forall x :: x !in keys {
      assert false;
    }
    var x :| x in keys;
    var rest := keys - {x};
    if rest == {} {
      assert forall j :: j in keys ==> j == x || j in rest;
      assert IsLeast(x, keys);
    } else {
      LeastExists(rest);
      var m :| IsLeast(m, rest);
      assert forall j :: j in keys ==> j == x || j in rest;
      if x < m {
        assert IsLeast(x, keys);
      } else {
        assert IsLeast(m, keys);
      }
    }
  }

  /** The keys of a table, each exactly once, in strictly ascending order. */
  function AscendingKeys(keys: set<int>): (r: seq<int>)
    ensures |r| == |keys|
    ensures forall k :: k in r <==> k in keys
    ensures forall i, j :: 0 <= i < j < |r| ==> r[i] < r[j]
    decreases |keys|
  {
    if keys == {} then []
    else
      LeastExists(keys);
      var k :| IsLeast(k, keys);
      [k] + AscendingKeys(keys - {k})
  }

  /** The rows of a table, one per key, in ascending key order. */
  function Rows<T>(table: map<int, T>): (r: seq<T>)
    ensures |r| == |table|
    ensures forall i :: 0 <= i < |r| ==> AscendingKeys(table.Keys)[i] in table
    ensures forall i :: 0 <= i < |r| ==> r[i] == table[AscendingKeys(table.Keys)[i]]
  {
    var ks := AscendingKeys(table.Keys);
    assert |table.Keys| == |table|;
    seq(|ks|, i requires 0 <= i < |ks| => table[ks[i]])
  }

  /** Every row of a table appears in its scan, and nothing else does. */
  lemma RowsListTable<T>(table: map<int, T>, x: T)
    ensures x in Rows(table) <==> exists k :: k in table && table[k] == x
  {
  }
}
