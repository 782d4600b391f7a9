/** Values shared by the whole model: optional values, the integer, infinite
    or NaN numbers the updater computes with, JavaScript objects as ordered
    dictionaries, and the target descriptors a settings entry can carry. */
module Base {

  datatype Option<T> = None | Some(value: T)

  /** How a JavaScript computation ends: normally with a value, or by throwing. */
  datatype Completion<T> = Normal(value: T) | Throw

  /** A JavaScript number, restricted to what the updater can produce: an
      integer, positive infinity (`Number("Infinity")`, and arithmetic on it
      with an integer), or NaN (a failed parse, or arithmetic on one). */
  datatype Num = Int(n: int) | Inf | NaN

  /** One own property of a JavaScript object. */
  datatype Entry<V> = Entry(key: string, value: V)

  /** A JavaScript object: its own properties in enumeration order. */
  type Dict<V> = seq<Entry<V>>

  /** What a settings entry names: one element id, an array of ids, or an
      object of strings (the value-to-id table a switch uses). */
  datatype Descriptor = Id(id: string) | Ids(ids: seq<string>) | Table(table: Dict<string>)

  predicate HasKey<V>(d: Dict<V>, k: string)
  {
    exists i :: 0 <= i < |d| && d[i].key == k
  }

  predicate DistinctKeys<V>(d: Dict<V>)
  {
    forall i, j :: 0 <= i < j < |d| ==> d[i].key != d[j].key
  }

  /** Property read `d[k]`: the value of the first property named k. */
  function Get<V>(d: Dict<V>, k: string): Option<V>
  {
    if d == [] then None
    else if d[0].key == k then Some(d[0].value)
    else Get(d[1..], k)
  }

  /** Property write `d[k] = v`: a property that exists keeps its place in
      the enumeration order and takes the new value; a new one goes last. */
  function Assign<V>(d: Dict<V>, k: string, v: V): Dict<V>
  {
    if d == [] then [Entry(k, v)]
    else if d[0].key == k then [Entry(k, v)] + d[1..]
    else [d[0]] + Assign(d[1..], k, v)
  }

  /** A read finds exactly the properties that exist. */
  lemma {:induction false} GetFindsKey<V>(d: Dict<V>, k: string)
    ensures Get(d, k).Some? <==> HasKey(d, k)
  {
    if d != [] && d[0].key != k {
      GetFindsKey(d[1..], k);
      if HasKey(d, k) {
        var i :| 0 <= i < |d| && d[i].key == k;
        assert d[1..][i - 1].key == k;
      }
      if HasKey(d[1..], k) {
        var i :| 0 <= i < |d[1..]| && d[1..][i].key == k;
        assert d[i + 1].key == k;
      }
    }
  }

  /** In an object, reading the key of its i-th property gives that property's value. */
  lemma {:induction false} GetAtIndex<V>(d: Dict<V>, i: nat)
    requires DistinctKeys(d) && i < |d|
    ensures Get(d, d[i].key) == Some(d[i].value)
  {
    if i > 0 {
      assert d[0].key != d[i].key;
      assert d[1..][i - 1] == d[i];
      GetAtIndex(d[1..], i - 1);
    }
  }

  /** After `d[k] = v`, reading k gives v and reading any other key is unaffected. */
  lemma {:induction false} GetAssign<V>(d: Dict<V>, k: string, v: V, k': string)
    ensures Get(Assign(d, k, v), k') == if k' == k then Some(v) else Get(d, k')
  {
    if d != [] && d[0].key != k {
      GetAssign(d[1..], k, v, k');
      assert Assign(d, k, v)[1..] == Assign(d[1..], k, v);
    }
  }

  /** `d[k] = v` keeps every property in its place and appends k only when it is new. */
  lemma {:induction false} AssignKeepsOrder<V>(d: Dict<V>, k: string, v: V)
    ensures |Assign(d, k, v)| == if HasKey(d, k) then |d| else |d| + 1
    ensures forall i :: 0 <= i < |d| ==> Assign(d, k, v)[i].key == d[i].key
    ensures !HasKey(d, k) ==> Assign(d, k, v)[|d|] == Entry(k, v)
  {
    if d != [] && d[0].key != k {
      AssignKeepsOrder(d[1..], k, v);
      var r := Assign(d, k, v);
      assert r == [d[0]] + Assign(d[1..], k, v);
      if HasKey(d, k) {
        var i :| 0 <= i < |d| && d[i].key == k;
        assert d[1..][i - 1].key == k;
      }
      if HasKey(d[1..], k) {
        var i :| 0 <= i < |d[1..]| && d[1..][i].key == k;
        assert d[i + 1].key == k;
      }
      forall i | 0 <= i < |d| ensures r[i].key == d[i].key {
        if i > 0 { assert r[i] == Assign(d[1..], k, v)[i - 1]; }
      }
    } else if d != [] {
      assert HasKey(d, k) by { assert d[0].key == k; }
    }
  }

  /** Writing a new property appends it. */
  lemma {:induction false} AssignNew<V>(d: Dict<V>, k: string, v: V)
    requires !HasKey(d, k)
    ensures Assign(d, k, v) == d + [Entry(k, v)]
  {
    if d != [] {
      assert d[0].key != k;
      assert !HasKey(d[1..], k) by {
        forall i | 0 <= i < |d[1..]| ensures d[1..][i].key != k {
          assert d[1..][i] == d[i + 1];
        }
      }
      AssignNew(d[1..], k, v);
      assert [d[0]] + (d[1..] + [Entry(k, v)]) == d + [Entry(k, v)];
    }
  }

  /** Property writes never produce two properties with the same name. */
  lemma {:induction false} AssignDistinct<V>(d: Dict<V>, k: string, v: V)
    requires DistinctKeys(d)
    ensures DistinctKeys(Assign(d, k, v))
  {
    AssignKeepsOrder(d, k, v);
    var r := Assign(d, k, v);
    if HasKey(d, k) {
      assert forall i :: 0 <= i < |r| ==> r[i].key == d[i].key;
    } else {
      forall i, j | 0 <= i < j < |r| ensures r[i].key != r[j].key {
        if j == |d| {
          assert r[i].key == d[i].key;
        }
      }
    }
  }

  /** Property writes `d[k] = v` performed in order on a new object; None
      stands for a write that is skipped. */
  function AssignAll<V>(writes: seq<Option<Entry<V>>>): Dict<V>
  {
    if writes == [] then []
    else
      var prev := AssignAll(writes[..|writes| - 1]);
      match writes[|writes| - 1]
      case None => prev
      case Some(w) => Assign(prev, w.key, w.value)
  }

  /** The writes up to j + 1 are those up to j followed by write j. */
  lemma AssignAllStep<V>(writes: seq<Option<Entry<V>>>, j: nat)
    requires j < |writes|
    ensures AssignAll(writes[..j + 1]) ==
      match writes[j] case None => AssignAll(writes[..j]) case Some(w) => Assign(AssignAll(writes[..j]), w.key, w.value)
  {
    assert writes[..j + 1][..j] == writes[..j];
  }

  /** Write j of the list is not skipped and names key k. */
  predicate WritesAt<V>(writes: seq<Option<Entry<V>>>, j: int, k: string)
  {
    0 <= j < |writes| && writes[j].Some? && writes[j].value.key == k
  }

  /** After the writes, a property exists exactly when some write names it. */
  lemma {:induction false} AssignAllHasKey<V>(writes: seq<Option<Entry<V>>>, k: string)
    ensures Get(AssignAll(writes), k).Some? <==> exists j :: WritesAt(writes, j, k)
  {
    if writes != [] {
      var n := |writes| - 1;
      var init := writes[..n];
      AssignAllHasKey(init, k);
      assert forall j :: 0 <= j < n ==> init[j] == writes[j];
      assert forall j :: 0 <= j < n ==> (WritesAt(init, j, k) <==> WritesAt(writes, j, k));
      if writes[n].Some? {
        assert AssignAll(writes) == Assign(AssignAll(init), writes[n].value.key, writes[n].value.value);
        GetAssign(AssignAll(init), writes[n].value.key, writes[n].value.value, k);
        assert writes[n].value.key == k ==> WritesAt(writes, n, k);
      } else {
        assert AssignAll(writes) == AssignAll(init);
      }
      if exists j :: WritesAt(writes, j, k) {
        var j :| WritesAt(writes, j, k);
        assert j < n ==> WritesAt(init, j, k);
      }
      if exists j :: WritesAt(init, j, k) {
        var j :| WritesAt(init, j, k);
        assert WritesAt(writes, j, k);
      }
    }
  }

  /** After the writes, a property holds the value of the last write that names it. */
  lemma {:induction false} AssignAllLastWins<V>(writes: seq<Option<Entry<V>>>, k: string, j: int)
    requires WritesAt(writes, j, k)
    requires forall j' :: j < j' < |writes| ==> !WritesAt(writes, j', k)
    ensures Get(AssignAll(writes), k) == Some(writes[j].value.value)
  {
    var n := |writes| - 1;
    var init := writes[..n];
    if j == n {
      GetAssign(AssignAll(init), k, writes[n].value.value, k);
    } else {
      assert forall j' :: 0 <= j' < n ==> init[j'] == writes[j'];
      assert forall j' :: 0 <= j' < n ==> (WritesAt(init, j', k) <==> WritesAt(writes, j', k));
      AssignAllLastWins(init, k, j);
      assert !WritesAt(writes, n, k);
      if writes[n].Some? {
        GetAssign(AssignAll(init), writes[n].value.key, writes[n].value.value, k);
      }
    }
  }

  /** The writes build an object, so no property appears twice. */
  lemma {:induction false} AssignAllDistinct<V>(writes: seq<Option<Entry<V>>>)
    ensures DistinctKeys(AssignAll(writes))
  {
    if writes != [] {
      var n := |writes| - 1;
      AssignAllDistinct(writes[..n]);
      if writes[n].Some? {
        AssignDistinct(AssignAll(writes[..n]), writes[n].value.key, writes[n].value.value);
      }
    }
  }

  /** Writes that are none of them skipped, to distinct keys, build the
      object that lists them in order. */
  lemma {:induction false} AssignAllFresh<V>(writes: seq<Option<Entry<V>>>)
    requires forall j :: 0 <= j < |writes| ==> writes[j].Some?
    requires forall i, j :: 0 <= i < j < |writes| ==> writes[i].value.key != writes[j].value.key
    ensures |AssignAll(writes)| == |writes|
    ensures forall j :: 0 <= j < |writes| ==> AssignAll(writes)[j] == writes[j].value
  {
    if writes != [] {
      var n := |writes| - 1;
      var init := writes[..n];
      assert forall j :: 0 <= j < n ==> init[j] == writes[j];
      AssignAllFresh(init);
      var prev := AssignAll(init);
      var w := writes[n].value;
      forall j | 0 <= j < |prev| ensures prev[j].key != w.key {
        assert prev[j] == writes[j].value;
      }
      AssignNew(prev, w.key, w.value);
      assert AssignAll(writes) == prev + [w];
    }
  }
}
