/**
 * A plain JavaScript object used as a string dictionary (`Record<string, string>`):
 * the CSV records of the responses table and the answer and error maps of the form
 * viewer. Property order is insertion order, as `Object.keys` and `Object.entries`
 * report it; the rule that integer-like keys come first is not modelled. Assigning
 * an existing key keeps its position, assigning a new key appends it.
 */
module JsObject {
  import opened Options

  datatype Entry = Entry(key: string, value: string)

  type Object = seq<Entry>

  /** `Object.keys(o)`: one key per entry, in entry order (KeysAt). */
  function Keys(o: Object): (ks: seq<string>)
    ensures |ks| == |o|
  {
    if o == [] then [] else Keys(o[..|o| - 1]) + [o[|o| - 1].key]
  }

  /** Key `i` is the key of entry `i`. */
  lemma {:induction false} KeysAt(o: Object)
    ensures |Keys(o)| == |o|
    ensures forall i :: 0 <= i < |o| ==> Keys(o)[i] == o[i].key
  {
    if o != [] {
      KeysAt(o[..|o| - 1]);
    }
  }

  predicate Distinct(ks: seq<string>) {
    forall i, j :: 0 <= i < j < |ks| ==> ks[i] != ks[j]
  }

  /** A well-formed object: every key appears once. */
  predicate WellFormed(o: Object) {
    Distinct(Keys(o))
  }

  /** Position of the entry for `k`, or `|o|` when `k` is absent. */
  function Find(o: Object, k: string): (i: nat)
    ensures i <= |o|
    ensures i < |o| ==> o[i].key == k
    ensures forall j :: 0 <= j < i ==> o[j].key != k
  {
    if o == [] then 0 else if o[0].key == k then 0 else Find(o[1..], k) + 1
  }

  lemma FindIsKeys(o: Object, k: string)
    ensures Find(o, k) < |o| <==> k in Keys(o)
  {
    KeysAt(o);
  }

  /** `o[k]`: the value stored under `k`, if any. There is one exactly when `k` is a
      key, and it is the value of an entry for `k`. */
  function Lookup(o: Object, k: string): (r: Option<string>)
    ensures r.Some? <==> k in Keys(o)
    ensures r.Some? ==> Entry(k, r.value) in o
  {
    var i := Find(o, k);
    FindIsKeys(o, k);
    if i < |o| then Some(o[i].value) else None
  }

  /** `o[k] || ''`: the value under `k`, the empty string when `k` is absent. */
  function Get(o: Object, k: string): (v: string)
    ensures Lookup(o, k).Some? ==> v == Lookup(o, k).value
    ensures Lookup(o, k).None? ==> v == ""
  {
    var i := Find(o, k);
    if i < |o| then o[i].value else ""
  }

  /** `o[k] = v` on a plain object, and `{...o, [k]: v}`: an existing key keeps its
      place, a new key goes last. The entry `k: v` is stored, and at most one entry
      is added; PutLookup and PutKeys state the rest. The two forms agree for every
      key except `__proto__`, where assignment calls the inherited setter and stores
      no property; that key is outside this model. */
  function Put(o: Object, k: string, v: string): (r: Object)
    ensures Entry(k, v) in r
    ensures |o| <= |r| <= |o| + 1
  {
    var i := Find(o, k);
    if i < |o| then
      var r := o[i := Entry(k, v)];
      assert r[i] == Entry(k, v);
      r
    else o + [Entry(k, v)]
  }

  /** After `o[k] = v`, `k` holds `v` and every other key holds what it held. */
  lemma PutLookup(o: Object, k: string, v: string)
    ensures Lookup(Put(o, k, v), k) == Some(v)
    ensures forall k' :: k' != k ==> Lookup(Put(o, k, v), k') == Lookup(o, k')
  {
    var r := Put(o, k, v);
    if Find(o, k) < |o| {
      forall k' ensures Find(r, k') == Find(o, k') {
        FindSameKeys(o, r, k');
      }
    } else {
      forall k' ensures Lookup(r, k') == (if k' == k then Some(v) else Lookup(o, k')) {
        FindAppend(o, Entry(k, v), k');
      }
    }
  }

  /** The key order is unchanged, except that a new key is appended at the end. */
  lemma PutKeys(o: Object, k: string, v: string)
    ensures Keys(Put(o, k, v)) == if k in Keys(o) then Keys(o) else Keys(o) + [k]
    ensures k !in Keys(o) ==> Put(o, k, v) == o + [Entry(k, v)]
  {
    var r := Put(o, k, v);
    FindIsKeys(o, k);
    if Find(o, k) < |o| {
      KeysAt(o);
      KeysAt(r);
    } else {
      assert r[..|r| - 1] == o;
    }
  }

  /** Assigning a key the object does not hold appends the entry. */
  lemma PutNew(o: Object, e: Entry)
    requires e.key !in Keys(o)
    ensures Put(o, e.key, e.value) == o + [e]
  {
    PutKeys(o, e.key, e.value);
  }

  /** Assignment never repeats a key. */
  lemma PutWellFormed(o: Object, k: string, v: string)
    requires WellFormed(o)
    ensures WellFormed(Put(o, k, v))
  {
    PutKeys(o, k, v);
  }

  /** Every entry after `o[k] = v` was there before or is the new one. */
  lemma PutEntries(o: Object, k: string, v: string)
    ensures forall e :: e in Put(o, k, v) ==> e in o || e == Entry(k, v)
  {
  }

  lemma {:induction false} FindSameKeys(o: Object, r: Object, k: string)
    requires |o| == |r|
    requires forall j :: 0 <= j < |o| ==> o[j].key == r[j].key
    ensures Find(r, k) == Find(o, k)
  {
    if o != [] && o[0].key != k {
      FindSameKeys(o[1..], r[1..], k);
    }
  }

  lemma {:induction false} FindAppend(o: Object, e: Entry, k: string)
    ensures Find(o, k) < |o| ==> Find(o + [e], k) == Find(o, k)
    ensures Find(o, k) == |o| ==> Find(o + [e], k) == if e.key == k then |o| else |o| + 1
  {
    if o != [] && o[0].key != k {
      assert (o + [e])[1..] == o[1..] + [e];
      FindAppend(o[1..], e, k);
    }
  }

  /** Lookup in a well-formed object finds the entry at any position, not only the first one. */
  lemma LookupAt(o: Object, i: nat)
    requires WellFormed(o) && i < |o|
    ensures Lookup(o, o[i].key) == Some(o[i].value)
  {
    KeysAt(o);
    var j := Find(o, o[i].key);
    assert Keys(o)[j] == Keys(o)[i];
  }
}
