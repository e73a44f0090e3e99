/**
 ObjectKeyGenerator.ts: hands out a React key per object, remembering the
 key it gave. The `WeakMap` is a finite map here (garbage collection is not
 modelled).
 */
module ObjectKeys {

  datatype ObjectKeyGenerator<K(==)> = ObjectKeyGenerator(curKey: nat, keys: map<K, nat>)

  /** A fresh generator: nothing seen, the next key is 1. */
  function NewGenerator<K(==)>(): (g: ObjectKeyGenerator<K>)
    ensures Valid(g) && g.curKey == 1 && g.keys == map[]
  {
    ObjectKeyGenerator(1, map[])
  }

  /** Every key handed out lies in [1, curKey), and no two objects share one. */
  ghost predicate Valid<K>(g: ObjectKeyGenerator<K>) {
    && g.curKey >= 1
    && (forall o :: o in g.keys ==> 1 <= g.keys[o] < g.curKey)
    && (forall o, o' :: o in g.keys && o' in g.keys && o != o' ==> g.keys[o] != g.keys[o'])
  }

  /** `getKey`: the remembered key for a known object; otherwise the current
      counter, which is then remembered and incremented. */
  function GetKey<K(==)>(g: ObjectKeyGenerator<K>, obj: K): (r: (nat, ObjectKeyGenerator<K>))
    ensures obj in g.keys ==> r.0 == g.keys[obj] && r.1 == g
    ensures obj !in g.keys ==> r.0 == g.curKey && r.1.curKey == g.curKey + 1
    ensures r.1.keys == g.keys[obj := r.0]
    ensures Valid(g) ==> Valid(r.1)
    ensures Valid(g) && obj !in g.keys ==> forall o :: o in g.keys ==> g.keys[o] < r.0
  {
    if obj in g.keys then (g.keys[obj], g)
    else
      var id := g.curKey;
      (id, ObjectKeyGenerator(g.curKey + 1, g.keys[obj := id]))
  }

  /** The first key handed out is 1. */
  lemma FirstKeyIsOne<K>(obj: K)
    ensures GetKey(NewGenerator<K>(), obj).0 == 1
  {
  }

  /** Asking again for the same object returns the same key and changes nothing. */
  lemma GetKeyIsStable<K>(g: ObjectKeyGenerator<K>, obj: K)
    ensures var (k, g1) := GetKey(g, obj); GetKey(g1, obj) == (k, g1)
  {
  }

  /** Two different objects asked for one after the other get different keys. */
  lemma DistinctObjectsGetDistinctKeys<K>(g: ObjectKeyGenerator<K>, a: K, b: K)
    requires Valid(g) && a != b
    ensures var (ka, g1) := GetKey(g, a); GetKey(g1, b).0 != ka
  {
    var (ka, g1) := GetKey(g, a);
    assert Valid(g1) && g1.keys[a] == ka;
  }
}
