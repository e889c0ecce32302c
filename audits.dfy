/** An audit row and the two views of its stored diff: the values after the
    change (`new_attributes`) and the values before it (`old_attributes`).

    A stored diff maps attribute names to either an `[old, new]` pair or, in
    the legacy format, a single value. The extracted hash is indifferent to
    the key's kind: `:a` and `'a'` both come out as the String `'a'`. */
module Audits {
  import opened RubyValues

  /** One row of the audits table, as read back. A nil column is None. */
  datatype Audit = Audit(
    auditableType: Option<string>,
    auditableId: Option<int>,
    action: string,
    changes: Option<Hash>,
    version: Option<int>,
    createdAt: Option<int>)

  /** Which half of a diff value to take. */
  datatype Side = Before | After

  /** The value of one diff entry on the given side: an Array gives its first
      (before) or last (after) element, nil when it is empty; any other value
      is both the before and the after value. */
  function Pick(v: Value, side: Side): Value
  {
    match v
    case Arr(elems) =>
      if elems == [] then Nil
      else if side == Before then elems[0]
      else elems[|elems| - 1]
    case _ => v
  }

  /** The names a diff mentions, whatever the kind of their keys. */
  function NamesOf(c: Hash): set<string> {
    set i | 0 <= i < |c| :: c[i].0.name
  }

  /** The value of the last entry of `c` whose key has name `n`. */
  function LastNamed(c: Hash, n: string): (r: Option<Value>)
    ensures r.Some? <==> n in NamesOf(c)
  {
    if c == [] then None
    else if c[|c| - 1].0.name == n then Some(c[|c| - 1].1)
    else
      assert forall i :: 0 <= i < |c| - 1 ==> c[..|c| - 1][i] == c[i];
      LastNamed(c[..|c| - 1], n)
  }

  /** The `inject` fold of new_attributes/old_attributes: each entry, in
      order, stored under the String form of its key. */
  function Extract(c: Hash, side: Side): (r: Hash)
    ensures UniqueKeys(r)
    ensures forall k :: k in KeysOf(r) <==> k.Text? && k.name in NamesOf(c)
  {
    if c == [] then []
    else
      var init := c[..|c| - 1];
      assert forall i :: 0 <= i < |init| ==> init[i] == c[i];
      assert NamesOf(c) == NamesOf(init) + {c[|c| - 1].0.name};
      Put(Extract(init, side), Text(c[|c| - 1].0.name), Pick(c[|c| - 1].1, side))
  }

  /** `new_attributes`: the changed attributes with their new values; a nil
      diff gives an empty hash. */
  function NewAttributes(a: Audit): Hash {
    match a.changes
    case None => []
    case Some(c) => Extract(c, After)
  }

  /** `old_attributes`: the changed attributes with their old values. */
  function OldAttributes(a: Audit): Hash {
    match a.changes
    case None => []
    case Some(c) => Extract(c, Before)
  }

  /** The extracted hash holds, under the String `n`, the chosen half of the
      last entry named `n`, and nothing under any other key. */
  lemma {:induction false} ExtractLookup(c: Hash, side: Side, k: Key)
    ensures Lookup(Extract(c, side), k) ==
      if k.Text? && LastNamed(c, k.name).Some? then Some(Pick(LastNamed(c, k.name).value, side)) else None
  {
    if c != [] {
      var init := c[..|c| - 1];
      ExtractLookup(init, side, k);
      LookupPut(Extract(init, side), Text(c[|c| - 1].0.name), Pick(c[|c| - 1].1, side), k);
    }
  }

  /** new_attributes maps every changed name to the last element of its
      Array value, or to the value itself when it is not an Array; it has no
      other keys. */
  lemma NewAttributesLookup(a: Audit, k: Key)
    ensures Lookup(NewAttributes(a), k) ==
      if a.changes.Some? && k.Text? && LastNamed(a.changes.value, k.name).Some?
      then Some(Pick(LastNamed(a.changes.value, k.name).value, After))
      else None
  {
    if a.changes.Some? {
      ExtractLookup(a.changes.value, After, k);
    }
  }

  /** old_attributes maps every changed name to the first element of its
      Array value, or to the value itself; it has no other keys. */
  lemma OldAttributesLookup(a: Audit, k: Key)
    ensures Lookup(OldAttributes(a), k) ==
      if a.changes.Some? && k.Text? && LastNamed(a.changes.value, k.name).Some?
      then Some(Pick(LastNamed(a.changes.value, k.name).value, Before))
      else None
  {
    if a.changes.Some? {
      ExtractLookup(a.changes.value, Before, k);
    }
  }

  /** Both views have exactly the String forms of the diff's keys. */
  lemma SameKeys(a: Audit)
    ensures KeysOf(NewAttributes(a)) == KeysOf(OldAttributes(a))
    ensures a.changes.Some? ==> KeysOf(NewAttributes(a)) == set n | n in NamesOf(a.changes.value) :: Text(n)
    ensures a.changes.None? ==> NewAttributes(a) == [] && OldAttributes(a) == []
  {
  }

  /** A diff written as `[old, new]` pairs under distinct names is split back
      into its two halves: new_attributes recovers each `new`, old_attributes
      each `old`. */
  lemma PairDiffRoundTrip(a: Audit, n: string, before: Value, after: Value)
    requires a.changes.Some? && LastNamed(a.changes.value, n) == Some(Arr([before, after]))
    ensures Lookup(NewAttributes(a), Text(n)) == Some(after)
    ensures Lookup(OldAttributes(a), Text(n)) == Some(before)
  {
    NewAttributesLookup(a, Text(n));
    OldAttributesLookup(a, Text(n));
    assert Pick(Arr([before, after]), After) == after && Pick(Arr([before, after]), Before) == before;
  }

  /** The documented example: `{a: [1, 2], b: [3, 4]}` gives
      `{'a' => 2, 'b' => 4}` and `{'a' => 1, 'b' => 3}`. */
  lemma SymbolKeyedExample()
    ensures var a := Audit(None, None, "update",
                Some([(Sym("a"), Arr([Int(1), Int(2)])), (Sym("b"), Arr([Int(3), Int(4)]))]),
                None, None);
            NewAttributes(a) == [(Text("a"), Int(2)), (Text("b"), Int(4))] &&
            OldAttributes(a) == [(Text("a"), Int(1)), (Text("b"), Int(3))]
  {
    var c := [(Sym("a"), Arr([Int(1), Int(2)])), (Sym("b"), Arr([Int(3), Int(4)]))];
    ExtractTwo(c, After);
    ExtractTwo(c, Before);
  }

  /** A one-entry diff extracts to one pair. */
  lemma ExtractOne(c: Hash, side: Side)
    requires |c| == 1
    ensures Extract(c, side) == [(Text(c[0].0.name), Pick(c[0].1, side))]
  {
    assert c[..0] == [];
    var empty: Hash := [];
    assert KeysOf(empty) == {};
  }

  /** A two-entry diff under distinct names extracts to two pairs, in order. */
  lemma ExtractTwo(c: Hash, side: Side)
    requires |c| == 2 && c[0].0.name != c[1].0.name
    ensures Extract(c, side) == [(Text(c[0].0.name), Pick(c[0].1, side)), (Text(c[1].0.name), Pick(c[1].1, side))]
  {
    var init := c[..1];
    ExtractOne(init, side);
    var first := Extract(init, side);
    assert NamesOf(init) == {c[0].0.name} by {
      assert init[0] == c[0];
    }
    assert Text(c[1].0.name) !in KeysOf(first);
  }
}
