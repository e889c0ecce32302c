/** The Ruby values the audit engine stores and moves around, and the one
    container it builds: an insertion-ordered Hash.

    A Ruby Hash keeps its keys in insertion order; assigning to a key that is
    already present replaces its value in place, assigning to a new key appends
    it. Symbol and String keys are distinct (`:version` is not `"version"`),
    except inside a HashWithIndifferentAccess, which turns every key into a
    String as it is stored. */
module RubyValues {

  datatype Option<+T> = None | Some(value: T)

  /** A value held in an attribute, a diff or the request store. `Model` is an
      ActiveRecord object, identified by its class name and primary key. */
  datatype Value =
    | Nil
    | Bool(b: bool)
    | Int(i: int)
    | Str(s: string)
    | Arr(elems: seq<Value>)
    | Model(modelType: string, id: int)

  /** Ruby truthiness: only nil and false are false. */
  predicate Truthy(v: Value) {
    !(v.Nil? || v == Bool(false))
  }

  /** `a || b` on Ruby values. */
  function Or(a: Value, b: Value): Value
  {
    if Truthy(a) then a else b
  }

  /** A hash key: a Symbol (`:a`) or a String (`'a'`). */
  datatype Key = Sym(name: string) | Text(name: string)

  /** A Ruby Hash, its pairs in insertion order. */
  type Hash = seq<(Key, Value)>

  /** No key occurs twice; every Hash that Ruby builds has this property. */
  predicate UniqueKeys(h: Hash) {
    forall i, j :: 0 <= i < j < |h| ==> h[i].0 != h[j].0
  }

  function KeysOf(h: Hash): set<Key> {
    set i | 0 <= i < |h| :: h[i].0
  }

  /** The position of the last pair with key `k`, or -1 when there is none. */
  function IndexOf(h: Hash, k: Key): (r: int)
    ensures -1 <= r < |h|
    ensures r >= 0 ==> h[r].0 == k
    ensures forall j :: r < j < |h| ==> h[j].0 != k
  {
    if h == [] then -1
    else if h[|h| - 1].0 == k then |h| - 1
    else IndexOf(h[..|h| - 1], k)
  }

  /** `h[k]`, with None for a missing key. */
  function Lookup(h: Hash, k: Key): (r: Option<Value>)
    ensures r.Some? <==> k in KeysOf(h)
  {
    var i := IndexOf(h, k);
    if i < 0 then None else Some(h[i].1)
  }

  /** `h[k] = v`: replaces the value of a present key in place, or appends. */
  function Put(h: Hash, k: Key, v: Value): (r: Hash)
    ensures KeysOf(r) == KeysOf(h) + {k}
    ensures UniqueKeys(h) ==> UniqueKeys(r)
    ensures k in KeysOf(h) ==> |r| == |h| && forall j :: 0 <= j < |h| ==> r[j].0 == h[j].0
    ensures k !in KeysOf(h) ==> r == h + [(k, v)]
  {
    var i := IndexOf(h, k);
    if i < 0 then
      var r := h + [(k, v)];
      assert r[|h|].0 == k && forall j :: 0 <= j < |h| ==> r[j] == h[j];
      r
    else
      var r := h[i := (k, v)];
      assert forall j :: 0 <= j < |h| ==> r[j].0 == h[j].0;
      r
  }

  /** `h.merge(o)` / `h.merge!(o)`: every pair of `o`, in order, put into `h`. */
  function Merge(h: Hash, o: Hash): (r: Hash)
    ensures KeysOf(r) == KeysOf(h) + KeysOf(o)
    ensures UniqueKeys(h) ==> UniqueKeys(r)
  {
    if o == [] then h
    else Put(Merge(h, o[..|o| - 1]), o[|o| - 1].0, o[|o| - 1].1)
  }

  /** Two hashes with the same key at every position agree on IndexOf. */
  lemma {:induction false} IndexOfSameKeys(h: Hash, g: Hash, k: Key)
    requires |h| == |g|
    requires forall j :: 0 <= j < |h| ==> h[j].0 == g[j].0
    ensures IndexOf(h, k) == IndexOf(g, k)
  {
    if h != [] {
      IndexOfSameKeys(h[..|h| - 1], g[..|g| - 1], k);
    }
  }

  /** Reading a key just written gives the written value; any other key is
      untouched. */
  lemma LookupPut(h: Hash, k: Key, v: Value, k': Key)
    ensures Lookup(Put(h, k, v), k') == if k' == k then Some(v) else Lookup(h, k')
  {
    var i := IndexOf(h, k);
    var r := Put(h, k, v);
    if i >= 0 {
      IndexOfSameKeys(r, h, k');
    } else if k' != k {
      IndexOfAppend(h, k, v, k');
    }
  }

  lemma {:induction false} IndexOfAppend(h: Hash, k: Key, v: Value, k': Key)
    requires k' != k
    ensures IndexOf(h + [(k, v)], k') == IndexOf(h, k')
  {
    assert (h + [(k, v)])[..|h|] == h;
  }

  /** After a merge, a key takes its value from `o` when `o` has it, and keeps
      its value from `h` otherwise. */
  lemma {:induction false} LookupMerge(h: Hash, o: Hash, k: Key)
    ensures Lookup(Merge(h, o), k) == if Lookup(o, k).Some? then Lookup(o, k) else Lookup(h, k)
  {
    if o != [] {
      var init := o[..|o| - 1];
      var last := o[|o| - 1];
      LookupMerge(h, init, k);
      LookupPut(Merge(h, init), last.0, last.1, k);
      if last.0 != k {
        assert IndexOf(o, k) == IndexOf(init, k);
      }
    }
  }
}
