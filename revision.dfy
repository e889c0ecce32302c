/** Assigning a reconstructed hash onto a live record
    (`assign_revision_attributes`) and building a revision from it
    (`revision`). */
module Revision {
  import opened RubyValues
  import opened Audits
  import opened Scopes
  import opened Reconstruction

  /** An instance of an audited model. `attributes` holds its column
      values; `setters` names the other `name=` writers its class defines,
      and `setterValues` what has been passed to them. */
  class Record {
    var attributes: map<string, Value>
    var setterValues: map<string, Value>
    const setters: set<string>
    var frozen: bool
    var newRecord: bool

    constructor (attributes: map<string, Value>, setters: set<string>, newRecord: bool)
      ensures this.attributes == attributes && this.setterValues == map[]
      ensures this.setters == setters && !frozen && this.newRecord == newRecord
    {
      this.attributes := attributes;
      this.setterValues := map[];
      this.setters := setters;
      this.frozen := false;
      this.newRecord := newRecord;
    }

    /** `respond_to?("#{name}=")`. */
    predicate RespondsTo(name: string)
      reads this
    {
      name in attributes || name in setters
    }

    /** `dup`: an unfrozen, unsaved copy. */
    method Dup() returns (r: Record)
      ensures fresh(r)
      ensures r.attributes == attributes && r.setterValues == setterValues && r.setters == setters
      ensures !r.frozen && r.newRecord
    {
      r := new Record(attributes, setters, true);
      r.setterValues := setterValues;
    }

    /** `record[name] = v` for a column, `send("#{name}=", v)` otherwise. */
    method Write(name: string, v: Value)
      requires RespondsTo(name)
      modifies this
      ensures name in old(attributes) ==> attributes == old(attributes)[name := v] && setterValues == old(setterValues)
      ensures name !in old(attributes) ==> attributes == old(attributes) && setterValues == old(setterValues)[name := v]
      ensures frozen == old(frozen) && newRecord == old(newRecord)
    {
      if name in attributes {
        attributes := attributes[name := v];
      } else {
        setterValues := setterValues[name := v];
      }
    }
  }

  /** The column values after assigning `h` in order: a pair whose name is a
      column overwrites it; any other pair leaves the columns alone. */
  function AssignColumns(columns: map<string, Value>, h: Hash): map<string, Value> {
    if h == [] then columns
    else
      var before := AssignColumns(columns, h[..|h| - 1]);
      var (k, v) := h[|h| - 1];
      if k.name in columns then before[k.name := v] else before
  }

  /** The values passed to non-column setters after assigning `h`; names
      that are neither columns nor setters are skipped. */
  function AssignSetters(setterValues: map<string, Value>, columns: set<string>, setters: set<string>, h: Hash): map<string, Value> {
    if h == [] then setterValues
    else
      var before := AssignSetters(setterValues, columns, setters, h[..|h| - 1]);
      var (k, v) := h[|h| - 1];
      if k.name !in columns && k.name in setters then before[k.name := v] else before
  }

  /** Assignment keeps the set of columns; a column named in `h` ends with
      the value of the last pair of that name, every other column is
      unchanged, and unknown names have no effect. */
  lemma {:induction false} AssignColumnsValue(columns: map<string, Value>, h: Hash, n: string)
    ensures AssignColumns(columns, h).Keys == columns.Keys
    ensures n in columns ==>
      AssignColumns(columns, h)[n] == if LastNamed(h, n).Some? then LastNamed(h, n).value else columns[n]
  {
    if h != [] {
      AssignColumnsValue(columns, h[..|h| - 1], n);
    }
  }

  /** Assignment sends a setter name the value of the last pair with that
      name, provided the name is a setter and not a column; every other
      setter value is unchanged, and nothing else is sent. */
  lemma {:induction false} AssignSettersValue(setterValues: map<string, Value>, columns: set<string>,
                                              setters: set<string>, h: Hash, n: string)
    ensures var sent := n !in columns && n in setters && LastNamed(h, n).Some?;
      && (n in AssignSetters(setterValues, columns, setters, h) <==> n in setterValues || sent)
      && (sent ==> AssignSetters(setterValues, columns, setters, h)[n] == LastNamed(h, n).value)
      && (!sent && n in setterValues ==> AssignSetters(setterValues, columns, setters, h)[n] == setterValues[n])
  {
    if h != [] {
      AssignSettersValue(setterValues, columns, setters, h[..|h| - 1], n);
    }
  }

  /** `assign_revision_attributes(record, h)`: writes every pair of `h` the
      record responds to, duplicating the record first when it is frozen,
      and returns the record written to. */
  method AssignRevisionAttributes(record: Record, h: Hash) returns (r: Record)
    modifies record
    ensures old(record.frozen) && h != [] ==> fresh(r) && !r.frozen && r.newRecord && unchanged(record)
    ensures !(old(record.frozen) && h != []) ==> r == record && r.frozen == old(record.frozen) && r.newRecord == old(record.newRecord)
    ensures r.setters == record.setters
    ensures r.attributes == AssignColumns(old(record.attributes), h)
    ensures r.setterValues == AssignSetters(old(record.setterValues), old(record.attributes).Keys, record.setters, h)
  {
    r := record;
    var i := 0;
    while i < |h|
      invariant 0 <= i <= |h|
      invariant old(record.frozen) ==> unchanged(record)
      invariant old(record.frozen) && i > 0 ==> fresh(r) && !r.frozen && r.newRecord
      invariant !(old(record.frozen) && i > 0) ==> r == record && r.frozen == old(record.frozen) && r.newRecord == old(record.newRecord)
      invariant r.setters == record.setters
      invariant r.attributes.Keys == old(record.attributes).Keys
      invariant r.attributes == AssignColumns(old(record.attributes), h[..i])
      invariant r.setterValues == AssignSetters(old(record.setterValues), old(record.attributes).Keys, record.setters, h[..i])
    {
      if r.frozen {
        r := r.Dup();
      }
      var (k, v) := h[i];
      if r.RespondsTo(k.name) {
        r.Write(k.name, v);
      }
      assert h[..i + 1][..i] == h[..i];
      i := i + 1;
      AssignColumnsValue(old(record.attributes), h[..i], k.name);
    }
    assert h[..i] == h;
  }

  /** `revision`: the record as it stood at `audit`'s version. `existing`
      is what looking the record up by id found (null once it has been
      destroyed); otherwise a new record of the class is built from its
      column defaults. The revision hash is assigned onto it. */
  method RevisionOf(trail: seq<Audit>, audit: Audit, existing: Record?,
                    defaults: map<string, Value>, setters: set<string>) returns (m: Record)
    modifies existing
    ensures existing != null ==> m == existing && m.newRecord == old(existing.newRecord)
    ensures existing == null ==> fresh(m) && m.newRecord && m.setters == setters
    ensures existing != null && old(existing.frozen) ==> unchanged(existing)
    ensures existing == null || !old(existing.frozen) ==>
      && !m.frozen
      && m.attributes == AssignColumns(if existing == null then defaults else old(existing.attributes),
                                       RevisionAttributes(trail, audit))
      && m.setterValues == AssignSetters(if existing == null then map[] else old(existing.setterValues),
                                         (if existing == null then defaults else old(existing.attributes)).Keys,
                                         m.setters, RevisionAttributes(trail, audit))
  {
    var h := RevisionAttributes(trail, audit);
    assert VERSION_KEY in KeysOf(h);
    if existing != null {
      m := existing;
    } else {
      m := new Record(defaults, setters, true);
    }
    var _ := AssignRevisionAttributes(m, h);
  }

  /** When only one key of a hash has name `n`, the last pair named `n`
      is that key's pair. */
  lemma {:induction false} LastNamedOnlyKey(h: Hash, k: Key)
    requires forall j :: 0 <= j < |h| && h[j].0.name == k.name ==> h[j].0 == k
    ensures LastNamed(h, k.name) == Lookup(h, k)
  {
    if h != [] {
      LastNamedOnlyKey(h[..|h| - 1], k);
    }
  }

  /** A revision assigns to each column other than `version` the value its
      last ancestor wrote, or leaves it as it was when no ancestor changed
      it; a `version` column, which no ancestor changed, gets the audit's
      own version. */
  lemma RevisionColumns(trail: seq<Audit>, audit: Audit, columns: map<string, Value>, n: string)
    requires n in columns
    requires n == "version" ==> LastChange(Ancestors(trail, audit), n).None?
    ensures AssignColumns(columns, RevisionAttributes(trail, audit)).Keys == columns.Keys
    ensures AssignColumns(columns, RevisionAttributes(trail, audit))[n] ==
      if n == "version" then VersionValue(audit.version)
      else if LastChange(Ancestors(trail, audit), n).Some? then LastChange(Ancestors(trail, audit), n).value
      else columns[n]
  {
    var h := RevisionAttributes(trail, audit);
    AssignColumnsValue(columns, h, n);
    var k := if n == "version" then VERSION_KEY else Text(n);
    forall j | 0 <= j < |h| && h[j].0.name == n ensures h[j].0 == k {
      var kj := h[j].0;
      assert kj in KeysOf(h);
      RevisionAttributesLookup(trail, audit, kj);
    }
    LastNamedOnlyKey(h, k);
    RevisionAttributesLookup(trail, audit, k);
  }
}
