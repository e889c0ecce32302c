/** Replaying an audit trail: `reconstruct_attributes` folds the new values
    of each audit, oldest first, into one hash and tags it with the version
    of the last audit; `revision` assigns that hash onto the audited record. */
module Reconstruction {
  import opened RubyValues
  import opened Audits
  import opened Scopes

  /** The key under which the fold records the version: the Symbol
      `:version`, distinct from any attribute key, which is a String. */
  const VERSION_KEY: Key := Sym("version")

  /** A version column as a hash value. */
  function VersionValue(v: Option<int>): Value
  {
    match v
    case None => Nil
    case Some(n) => Int(n)
  }

  /** The accumulator after folding `audits` from the left: merge each
      audit's new_attributes, then set `:version` to its version. */
  function Reconstructed(audits: seq<Audit>): Hash {
    if audits == [] then []
    else
      var last := audits[|audits| - 1];
      Put(Merge(Reconstructed(audits[..|audits| - 1]), NewAttributes(last)), VERSION_KEY, VersionValue(last.version))
  }

  /** The new value the last audit that changes attribute `n` gives it:
      the reference definition of "last writer wins". */
  function LastChange(audits: seq<Audit>, n: string): Option<Value> {
    if audits == [] then None
    else
      var last := audits[|audits| - 1];
      if last.changes.Some? && LastNamed(last.changes.value, n).Some?
      then Some(Pick(LastNamed(last.changes.value, n).value, After))
      else LastChange(audits[..|audits| - 1], n)
  }

  /** What the fold holds under each key: every attribute its last writer's
      value, `:version` the last audit's version, and nothing else. */
  lemma {:induction false} ReconstructedLookup(audits: seq<Audit>, k: Key)
    ensures Lookup(Reconstructed(audits), k) ==
      if k == VERSION_KEY then (if audits == [] then None else Some(VersionValue(audits[|audits| - 1].version)))
      else if k.Text? then LastChange(audits, k.name)
      else None
  {
    if audits != [] {
      var init := audits[..|audits| - 1];
      var last := audits[|audits| - 1];
      ReconstructedLookup(init, k);
      LookupPut(Merge(Reconstructed(init), NewAttributes(last)), VERSION_KEY, VersionValue(last.version), k);
      LookupMerge(Reconstructed(init), NewAttributes(last), k);
      NewAttributesLookup(last, k);
    }
  }

  /** `reconstruct_attributes(audits)` without a block: one accumulator,
      updated in place by each audit in turn. */
  method ReconstructAttributes(audits: seq<Audit>) returns (attributes: Hash)
    ensures attributes == Reconstructed(audits)
    ensures audits == [] ==> attributes == []
    ensures forall n :: Lookup(attributes, Text(n)) == LastChange(audits, n)
    ensures Lookup(attributes, VERSION_KEY) ==
      if audits == [] then None else Some(VersionValue(audits[|audits| - 1].version))
    ensures forall k :: k in KeysOf(attributes) ==> k.Text? || k == VERSION_KEY
  {
    attributes := [];
    var i := 0;
    while i < |audits|
      invariant 0 <= i <= |audits|
      invariant attributes == Reconstructed(audits[..i])
    {
      attributes := Merge(attributes, NewAttributes(audits[i]));
      attributes := Put(attributes, VERSION_KEY, VersionValue(audits[i].version));
      i := i + 1;
      assert audits[..i][..i - 1] == audits[..i - 1];
    }
    assert audits[..i] == audits;
    ReconstructedShape(audits);
  }

  /** ReconstructedLookup, stated per kind of key. */
  lemma ReconstructedShape(audits: seq<Audit>)
    ensures forall n :: Lookup(Reconstructed(audits), Text(n)) == LastChange(audits, n)
    ensures Lookup(Reconstructed(audits), VERSION_KEY) ==
      if audits == [] then None else Some(VersionValue(audits[|audits| - 1].version))
    ensures forall k :: k in KeysOf(Reconstructed(audits)) ==> k.Text? || k == VERSION_KEY
  {
    forall k ensures Lookup(Reconstructed(audits), k) ==
      if k == VERSION_KEY then (if audits == [] then None else Some(VersionValue(audits[|audits| - 1].version)))
      else if k.Text? then LastChange(audits, k.name)
      else None
    {
      ReconstructedLookup(audits, k);
    }
  }

  /** A legacy diff that stores only the new value, `{'attribute' => 'value'}`,
      reconstructs to that value. */
  lemma LegacySingleValue(a: Audit, n: string, v: Value)
    requires a.changes == Some([(Text(n), v)])
    requires !v.Arr?
    ensures Lookup(Reconstructed([a]), Text(n)) == Some(v)
  {
    ReconstructedLookup([a], Text(n));
    assert [a][..0] == [];
  }

  /** Replaying one more audit only changes what that audit mentions and the
      version tag. */
  lemma {:induction false} ReconstructStep(audits: seq<Audit>, a: Audit, n: string)
    requires a.changes.None? || n !in NamesOf(a.changes.value)
    ensures Lookup(Reconstructed(audits + [a]), Text(n)) == Lookup(Reconstructed(audits), Text(n))
  {
    var s := audits + [a];
    assert s[..|s| - 1] == audits;
    ReconstructedLookup(s, Text(n));
    ReconstructedLookup(audits, Text(n));
  }

  /** The hash `revision` assigns: the reconstruction of the ancestors,
      merged with `version: <this audit's version>`. */
  function RevisionAttributes(trail: seq<Audit>, audit: Audit): Hash {
    Merge(Reconstructed(Ancestors(trail, audit)), [(VERSION_KEY, VersionValue(audit.version))])
  }

  /** The revision of an audit carries that audit's own version and, for
      every attribute, the value its last ancestor wrote. */
  lemma RevisionAttributesLookup(trail: seq<Audit>, audit: Audit, k: Key)
    ensures Lookup(RevisionAttributes(trail, audit), k) ==
      if k == VERSION_KEY then Some(VersionValue(audit.version))
      else if k.Text? then LastChange(Ancestors(trail, audit), k.name)
      else None
  {
    var anc := Ancestors(trail, audit);
    var tag: Hash := [(VERSION_KEY, VersionValue(audit.version))];
    LookupMerge(Reconstructed(anc), tag, k);
    ReconstructedLookup(anc, k);
    assert tag[..0] == [];
  }
}
