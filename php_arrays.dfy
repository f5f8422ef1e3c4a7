/** PHP's ordered property tables: the properties of a `stdClass` object and
    the entries of an associative array keep insertion order, and writing
    to an existing name replaces its value in place. */
module PhpArrays {
  import opened PhpValues

  datatype Prop = Prop(name: string, value: Value)

  /** An ordered property table; PHP keeps its names unique. */
  type Dict = seq<Prop>

  predicate UniqueKeys(d: Dict) {
    forall i, j :: 0 <= i < j < |d| ==> d[i].name != d[j].name
  }

  /** Position of the property `k`, or |d| when there is none. */
  function IndexOf(d: Dict, k: string): (i: nat)
    ensures i <= |d|
    ensures i < |d| ==> d[i].name == k
    ensures forall j :: 0 <= j < i ==> d[j].name != k
  {
    if d == [] then 0 else if d[0].name == k then 0 else 1 + IndexOf(d[1..], k)
  }

  /** `$array[$k]` when the key may be missing: absent exactly when no
      entry has that name, and otherwise the value of such an entry. */
  function Lookup(d: Dict, k: string): (r: Option<Value>)
    ensures r.None? <==> !HasKey(d, k)
    ensures r.Some? ==> exists i :: 0 <= i < |d| && d[i] == Prop(k, r.value)
  {
    var i := IndexOf(d, k);
    if i < |d| then Some(d[i].value) else None
  }

  /** Reading the property `$object->{$k}`: a missing property reads as null. */
  function Get(d: Dict, k: string): (r: Value)
    ensures !HasKey(d, k) ==> r == Null
    ensures UniqueKeys(d) ==> forall i :: 0 <= i < |d| && d[i].name == k ==> r == d[i].value
  {
    match Lookup(d, k)
    case Some(v) => v
    case None => Null
  }

  /** Assignment `$object->{$k} = $v`: overwrite in place, or append. */
  function Put(d: Dict, k: string, v: Value): (r: Dict)
    ensures HasKey(r, k)
    ensures |r| == if HasKey(d, k) then |d| else |d| + 1
  {
    var i := IndexOf(d, k);
    if i < |d| then
      var r := d[i := Prop(k, v)];
      assert r[i].name == k;
      r
    else
      var r := d + [Prop(k, v)];
      assert r[|d|].name == k;
      r
  }

  predicate HasKey(d: Dict, k: string) {
    exists i :: 0 <= i < |d| && d[i].name == k
  }

  lemma LookupAt(d: Dict, i: nat)
    requires UniqueKeys(d) && i < |d|
    ensures Lookup(d, d[i].name) == Some(d[i].value)
  {
    var j := IndexOf(d, d[i].name);
    assert j == i;
  }

  /** Writing `k` makes it read back `v` and leaves every other name as it was. */
  lemma PutLookup(d: Dict, k: string, v: Value, k': string)
    ensures Lookup(Put(d, k, v), k') == if k' == k then Some(v) else Lookup(d, k')
  {
    var i := IndexOf(d, k);
    var r := Put(d, k, v);
    assert r[i].name == k;
    assert forall j :: 0 <= j < i ==> r[j] == d[j];
    assert IndexOf(r, k) == i;
    if k' != k {
      var a := IndexOf(d, k');
      var b := IndexOf(r, k');
      if a < |d| {
        assert r[a].name == k';
      }
      if b < |d| {
        assert d[b].name == k';
      }
    }
  }

  /** Writing keeps the names unique. */
  lemma PutUnique(d: Dict, k: string, v: Value)
    requires UniqueKeys(d)
    ensures UniqueKeys(Put(d, k, v))
  {
  }

  /** Writing an existing name replaces its entry in place; the order of
      the properties does not change. */
  lemma PutInPlace(d: Dict, k: string, v: Value)
    requires UniqueKeys(d) && HasKey(d, k)
    ensures |Put(d, k, v)| == |d|
    ensures forall j :: 0 <= j < |d| ==> Put(d, k, v)[j] == (if d[j].name == k then Prop(k, v) else d[j])
  {
  }

  /** Writing a new name appends it at the end. */
  lemma PutAppends(d: Dict, k: string, v: Value)
    requires !HasKey(d, k)
    ensures Put(d, k, v) == d + [Prop(k, v)]
  {
  }

  /** The table with every name `k` renamed to `rename(k)`, values and order
      kept: the shape of a `foreach` that copies each entry under a new name
      into a table that does not have those names yet. */
  function MapKeys(d: Dict, rename: string -> string): Dict
    decreases |d|
  {
    if d == [] then []
    else MapKeys(d[..|d| - 1], rename) + [Prop(rename(d[|d| - 1].name), d[|d| - 1].value)]
  }

  lemma {:induction false} MapKeysShape(d: Dict, rename: string -> string)
    ensures |MapKeys(d, rename)| == |d|
    ensures forall i :: 0 <= i < |d| ==> MapKeys(d, rename)[i] == Prop(rename(d[i].name), d[i].value)
    decreases |d|
  {
    if d != [] {
      MapKeysShape(d[..|d| - 1], rename);
    }
  }

  /** Renaming with an injective function keeps the names unique. */
  lemma MapKeysUnique(d: Dict, rename: string -> string)
    requires UniqueKeys(d)
    requires forall a, b :: rename(a) == rename(b) ==> a == b
    ensures UniqueKeys(MapKeys(d, rename))
  {
    MapKeysShape(d, rename);
  }

  /** A PHP `stdClass` object whose properties are written one by one. */
  class PhpObject {
    var props: Dict

    ghost predicate Valid()
      reads this
    {
      UniqueKeys(props)
    }

    constructor (initial: Dict)
      requires UniqueKeys(initial)
      ensures Valid() && props == initial
    {
      props := initial;
    }

    /** `$this->{$name} = $value`. */
    method Set(name: string, value: Value)
      requires Valid()
      modifies this
      ensures Valid()
      ensures props == Put(old(props), name, value)
    {
      PutUnique(props, name, value);
      props := Put(props, name, value);
    }
  }
}
