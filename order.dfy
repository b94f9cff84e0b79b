/** The order in which `ORDER BY name` returns rows, and the name-ordered
    listing of a table.

    Names are compared character by character on their code points (the "C"
    collation); a prefix sorts before any longer name. */
module Order {

  /** `a` sorts no later than `b`. */
  predicate NameLe(a: string, b: string)
    decreases |a|
  {
    |a| == 0 || (|b| > 0 && (a[0] < b[0] || (a[0] == b[0] && NameLe(a[1..], b[1..]))))
  }

  lemma {:induction false} NameLeReflexive(a: string)
    ensures NameLe(a, a)
    decreases |a|
  {
    if |a| > 0 {
      NameLeReflexive(a[1..]);
    }
  }

  lemma {:induction false} NameLeTotal(a: string, b: string)
    ensures NameLe(a, b) || NameLe(b, a)
    decreases |a|
  {
    if |a| > 0 && |b| > 0 && a[0] == b[0] {
      NameLeTotal(a[1..], b[1..]);
    }
  }

  lemma {:induction false} NameLeTransitive(a: string, b: string, c: string)
    requires NameLe(a, b) && NameLe(b, c)
    ensures NameLe(a, c)
    decreases |a|
  {
    if |a| > 0 && a[0] == b[0] && b[0] == c[0] {
      NameLeTransitive(a[1..], b[1..], c[1..]);
    }
  }

  lemma {:induction false} NameLeAntisymmetric(a: string, b: string)
    requires NameLe(a, b) && NameLe(b, a)
    ensures a == b
    decreases |a|
  {
    if |a| > 0 {
      NameLeAntisymmetric(a[1..], b[1..]);
      assert a == [a[0]] + a[1..];
      assert b == [b[0]] + b[1..];
    }
  }

  /** Any two rows of `rows` appear in name order. */
  ghost predicate SortedBy<V>(rows: seq<V>, key: V -> string)
  {
    forall i, j :: 0 <= i < j < |rows| ==> NameLe(key(rows[i]), key(rows[j]))
  }

  /** `k` is a key of `ks` whose row has the least name. */
  ghost predicate IsLeast<K, V>(ks: set<K>, m: map<K, V>, key: V -> string, k: K)
    requires ks <= m.Keys
  {
    k in ks && forall j :: j in ks ==> NameLe(key(m[k]), key(m[j]))
  }

  lemma {:induction false} LeastExists<K, V>(ks: set<K>, m: map<K, V>, key: V -> string)
    requires ks <= m.Keys && ks != {}
    ensures exists k :: IsLeast(ks, m, key, k)
    decreases ks
  {
    var x :| x in ks;
    NameLeReflexive(key(m[x]));
    if ks - {x} == {} {
      assert ks == {x};
      assert IsLeast(ks, m, key, x);
    } else {
      LeastExists(ks - {x}, m, key);
      var y :| IsLeast(ks - {x}, m, key, y);
      NameLeTotal(key(m[x]), key(m[y]));
      if NameLe(key(m[x]), key(m[y])) {
        forall j | j in ks ensures NameLe(key(m[x]), key(m[j])) {
          if j != x {
            NameLeTransitive(key(m[x]), key(m[y]), key(m[j]));
          }
        }
        assert IsLeast(ks, m, key, x);
      } else {
        assert IsLeast(ks, m, key, y);
      }
    }
  }

  /** The keys `ks` of `m`, each once, in name order of their rows (rows
      with equal names in an unspecified order). */
  ghost function OrderedKeys<K, V>(ks: set<K>, m: map<K, V>, key: V -> string): (r: seq<K>)
    requires ks <= m.Keys
    ensures |r| == |ks|
    ensures forall i :: 0 <= i < |r| ==> r[i] in ks
    ensures forall k :: k in ks ==> k in r
    ensures forall i, j :: 0 <= i < j < |r| ==> r[i] != r[j]
    ensures forall i, j :: 0 <= i < j < |r| ==> NameLe(key(m[r[i]]), key(m[r[j]]))
    decreases ks
  {
    if ks == {} then []
    else
      LeastExists(ks, m, key);
      var k :| IsLeast(ks, m, key, k);
      [k] + OrderedKeys(ks - {k}, m, key)
  }

  /** The rows of `m` under the keys `ks`, in that order. */
  ghost function RowsAt<K, V>(ks: seq<K>, m: map<K, V>): (rows: seq<V>)
    requires forall i :: 0 <= i < |ks| ==> ks[i] in m
    ensures |rows| == |ks|
    ensures forall i :: 0 <= i < |ks| ==> rows[i] == m[ks[i]]
  {
    seq(|ks|, i requires 0 <= i < |ks| => m[ks[i]])
  }

  /** No two keys of `m` hold the same row (true of a table whose rows
      carry their own key). */
  ghost predicate DistinctRows<K, V>(m: map<K, V>)
  {
    forall a, b :: a in m && b in m && a != b ==> m[a] != m[b]
  }

  /** All rows of the table `m`, in name order: the result of
      `SELECT * FROM m ORDER BY key`. Each row of the table is listed, once
      per key holding it. */
  ghost function SortedRows<K, V>(m: map<K, V>, key: V -> string): (rows: seq<V>)
    ensures |rows| == |m.Keys|
    ensures forall i :: 0 <= i < |rows| ==> rows[i] in m.Values
    ensures forall v :: v in m.Values ==> v in rows
    ensures DistinctRows(m) ==> forall i, j :: 0 <= i < j < |rows| ==> rows[i] != rows[j]
    ensures SortedBy(rows, key)
  {
    var ks := OrderedKeys(m.Keys, m, key);
    RowsAtSorted(ks, m, key);
    RowsAtCover(ks, m);
    RowsAtDistinct(ks, m);
    RowsAt(ks, m)
  }

  lemma RowsAtDistinct<K, V>(ks: seq<K>, m: map<K, V>)
    requires forall i :: 0 <= i < |ks| ==> ks[i] in m
    requires forall i, j :: 0 <= i < j < |ks| ==> ks[i] != ks[j]
    ensures DistinctRows(m) ==> forall i, j :: 0 <= i < j < |ks| ==> RowsAt(ks, m)[i] != RowsAt(ks, m)[j]
  {
    var rows := RowsAt(ks, m);
    if DistinctRows(m) {
      forall i, j | 0 <= i < j < |ks| ensures rows[i] != rows[j] {
        assert rows[i] == m[ks[i]] && rows[j] == m[ks[j]];
      }
    }
  }

  lemma RowsAtSorted<K, V>(ks: seq<K>, m: map<K, V>, key: V -> string)
    requires forall i :: 0 <= i < |ks| ==> ks[i] in m
    requires forall i, j :: 0 <= i < j < |ks| ==> NameLe(key(m[ks[i]]), key(m[ks[j]]))
    ensures SortedBy(RowsAt(ks, m), key)
  {
    var rows := RowsAt(ks, m);
    forall i, j | 0 <= i < j < |rows| ensures NameLe(key(rows[i]), key(rows[j])) {
      assert rows[i] == m[ks[i]] && rows[j] == m[ks[j]];
    }
  }

  lemma RowsAtCover<K, V>(ks: seq<K>, m: map<K, V>)
    requires forall i :: 0 <= i < |ks| ==> ks[i] in m
    requires forall k :: k in m ==> k in ks
    ensures forall i :: 0 <= i < |ks| ==> RowsAt(ks, m)[i] in m.Values
    ensures forall k :: k in m ==> m[k] in RowsAt(ks, m)
  {
    var rows := RowsAt(ks, m);
    forall i | 0 <= i < |ks| ensures rows[i] in m.Values {
      assert rows[i] == m[ks[i]];
    }
    forall k | k in m ensures m[k] in rows {
      var i :| 0 <= i < |ks| && ks[i] == k;
      assert rows[i] == m[k];
    }
  }
}
