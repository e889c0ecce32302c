/** The query scopes of the ActiveRecord audit class, over the audits table
    given as a sequence of rows, and the version numbers derived from them.

    SQL semantics: a comparison with a NULL column never holds, so a row with
    a nil version or timestamp is never kept by a range or equality
    filter, except that `where(col: nil)` matches NULL. Ordering by version
    puts NULL below every number (NULLs first ascending, last descending);
    rows whose versions tie may come out in any order. */
module Scopes {
  import opened RubyValues
  import opened Audits

  /** `where(...)`: the rows satisfying `p`, in their original order; a row
      that occurs several times is kept as often as it occurs. */
  function Where(t: seq<Audit>, p: Audit -> bool): (r: seq<Audit>)
    ensures |r| <= |t|
    ensures forall a :: a in r <==> a in t && p(a)
    ensures forall a :: multiset(r)[a] == if p(a) then multiset(t)[a] else 0
    ensures SortedAscending(t) ==> SortedAscending(r)
  {
    if t == [] then []
    else
      var init := t[..|t| - 1];
      var last := t[|t| - 1];
      assert t == init + [last];
      var w := Where(init, p);
      FilterStep(init, last, w, p);
      if p(last) then w + [last] else w
  }

  /** The rows `r` are what `where` keeps of `t`: those satisfying `p`, as
      often as they occur, keeping ascending order. */
  ghost predicate Filtered(t: seq<Audit>, p: Audit -> bool, r: seq<Audit>) {
    && |r| <= |t|
    && (forall a :: a in r <==> a in t && p(a))
    && (forall a :: multiset(r)[a] == if p(a) then multiset(t)[a] else 0)
    && (SortedAscending(t) ==> SortedAscending(r))
  }

  /** One more row either is kept, at the end, or is dropped. */
  lemma FilterStep(init: seq<Audit>, last: Audit, w: seq<Audit>, p: Audit -> bool)
    requires Filtered(init, p, w)
    ensures Filtered(init + [last], p, if p(last) then w + [last] else w)
  {
    var t := init + [last];
    assert multiset(t) == multiset(init) + multiset{last};
    if p(last) {
      assert multiset(w + [last]) == multiset(w) + multiset{last};
      if SortedAscending(t) {
        forall a | a in w ensures VersionLe(a.version, last.version) {
          var i :| 0 <= i < |init| && init[i] == a;
          assert t[i] == a && t[|init|] == last;
        }
        assert SortedAscending(init) by {
          forall i, j | 0 <= i < j < |init| ensures VersionLe(init[i].version, init[j].version) {
            assert t[i] == init[i] && t[j] == init[j];
          }
        }
        AppendSorted(w, last);
      }
    } else {
      if SortedAscending(t) {
        assert SortedAscending(init) by {
          forall i, j | 0 <= i < j < |init| ensures VersionLe(init[i].version, init[j].version) {
            assert t[i] == init[i] && t[j] == init[j];
          }
        }
      }
    }
  }

  lemma AppendSorted(s: seq<Audit>, x: Audit)
    requires SortedAscending(s)
    requires forall a :: a in s ==> VersionLe(a.version, x.version)
    ensures SortedAscending(s + [x])
  {
    var r := s + [x];
    forall i, j | 0 <= i < j < |r| ensures VersionLe(r[i].version, r[j].version) {
      assert r[i] == s[i] && r[i] in s;
    }
  }

  /** `version <= other` in the database's order: NULL sorts below all. */
  predicate VersionLe(v: Option<int>, w: Option<int>) {
    v.None? || (w.Some? && v.value <= w.value)
  }

  predicate SortedAscending(s: seq<Audit>) {
    forall i, j :: 0 <= i < j < |s| ==> VersionLe(s[i].version, s[j].version)
  }

  predicate SortedDescending(s: seq<Audit>) {
    forall i, j :: 0 <= i < j < |s| ==> VersionLe(s[j].version, s[i].version)
  }

  function Insert(x: Audit, s: seq<Audit>): (r: seq<Audit>)
    requires SortedAscending(s)
    ensures SortedAscending(r)
    ensures multiset(r) == multiset(s) + multiset{x}
  {
    if s == [] then [x]
    else if VersionLe(x.version, s[0].version) then [x] + s
    else
      var rest := Insert(x, s[1..]);
      assert s == [s[0]] + s[1..];
      forall j | 0 <= j < |rest| ensures VersionLe(s[0].version, rest[j].version) {
        assert rest[j] in multiset(rest);
        if rest[j] != x {
          assert rest[j] in multiset(s[1..]);
          var k :| 0 <= k < |s[1..]| && s[1..][k] == rest[j];
          assert s[k + 1] == rest[j];
        }
      }
      PrependSorted(s[0], rest);
      [s[0]] + rest
  }

  lemma PrependSorted(x: Audit, s: seq<Audit>)
    requires SortedAscending(s)
    requires forall j :: 0 <= j < |s| ==> VersionLe(x.version, s[j].version)
    ensures SortedAscending([x] + s)
  {
    var r := [x] + s;
    forall i, j | 0 <= i < j < |r| ensures VersionLe(r[i].version, r[j].version) {
      if i > 0 {
        assert r[i] == s[i - 1] && r[j] == s[j - 1];
      }
    }
  }

  /** `ascending`: the rows ordered by version, lowest first. */
  function Ascending(t: seq<Audit>): (r: seq<Audit>)
    ensures SortedAscending(r)
    ensures multiset(r) == multiset(t)
  {
    if t == [] then []
    else
      assert t == [t[0]] + t[1..];
      Insert(t[0], Ascending(t[1..]))
  }

  function Reverse(s: seq<Audit>): (r: seq<Audit>)
    ensures |r| == |s|
    ensures forall i :: 0 <= i < |s| ==> r[i] == s[|s| - 1 - i]
  {
    if s == [] then [] else Reverse(s[1..]) + [s[0]]
  }

  /** `descending`: the rows ordered by version, highest first. */
  function Descending(t: seq<Audit>): (r: seq<Audit>)
    ensures SortedDescending(r)
    ensures multiset(r) == multiset(t)
  {
    var up := Ascending(t);
    var r := Reverse(up);
    assert multiset(r) == multiset(up) by {
      ReverseMultiset(up);
    }
    r
  }

  lemma {:induction false} ReverseMultiset(s: seq<Audit>)
    ensures multiset(Reverse(s)) == multiset(s)
  {
    if s != [] {
      ReverseMultiset(s[1..]);
      assert s == [s[0]] + s[1..];
    }
  }

  /** `creates`, `updates`, `destroys`: the rows of one action. */
  function WithAction(t: seq<Audit>, action: string): (r: seq<Audit>)
    ensures forall a :: a in r <==> a in t && a.action == action
    ensures forall a :: multiset(r)[a] == if a.action == action then multiset(t)[a] else 0
  {
    Where(t, (a: Audit) => a.action == action)
  }

  function Creates(t: seq<Audit>): (r: seq<Audit>)
    ensures forall a :: a in r <==> a in t && a.action == "create"
    ensures forall a :: multiset(r)[a] == if a.action == "create" then multiset(t)[a] else 0
  {
    WithAction(t, "create")
  }

  function Updates(t: seq<Audit>): (r: seq<Audit>)
    ensures forall a :: a in r <==> a in t && a.action == "update"
    ensures forall a :: multiset(r)[a] == if a.action == "update" then multiset(t)[a] else 0
  {
    WithAction(t, "update")
  }

  function Destroys(t: seq<Audit>): (r: seq<Audit>)
    ensures forall a :: a in r <==> a in t && a.action == "destroy"
    ensures forall a :: multiset(r)[a] == if a.action == "destroy" then multiset(t)[a] else 0
  {
    WithAction(t, "destroy")
  }

  /** `up_until(time)`: rows created at or before `time`. */
  function UpUntil(t: seq<Audit>, time: Option<int>): (r: seq<Audit>)
    ensures forall a :: a in r <==> a in t && a.createdAt.Some? && time.Some? && a.createdAt.value <= time.value
    ensures forall a :: multiset(r)[a] == if a.createdAt.Some? && time.Some? && a.createdAt.value <= time.value then multiset(t)[a] else 0
  {
    Where(t, (a: Audit) => a.createdAt.Some? && time.Some? && a.createdAt.value <= time.value)
  }

  /** `from_version(v)`: rows whose version is at least `v`. */
  function FromVersion(t: seq<Audit>, v: Option<int>): (r: seq<Audit>)
    ensures forall a :: a in r <==> a in t && a.version.Some? && v.Some? && a.version.value >= v.value
    ensures forall a :: multiset(r)[a] == if a.version.Some? && v.Some? && a.version.value >= v.value then multiset(t)[a] else 0
  {
    Where(t, (a: Audit) => a.version.Some? && v.Some? && a.version.value >= v.value)
  }

  /** `to_version(v)`: rows whose version is at most `v`. */
  function ToVersion(t: seq<Audit>, v: Option<int>): (r: seq<Audit>)
    ensures forall a :: a in r <==> a in t && a.version.Some? && v.Some? && a.version.value <= v.value
    ensures forall a :: multiset(r)[a] == if a.version.Some? && v.Some? && a.version.value <= v.value then multiset(t)[a] else 0
    ensures SortedAscending(t) ==> SortedAscending(r)
  {
    Where(t, (a: Audit) => a.version.Some? && v.Some? && a.version.value <= v.value)
  }

  /** `auditable_finder(id, type)`: the rows of one audited record. */
  function AuditableFinder(t: seq<Audit>, id: Option<int>, typ: Option<string>): (r: seq<Audit>)
    ensures forall a :: a in r <==> a in t && a.auditableId == id && a.auditableType == typ
    ensures forall a :: multiset(r)[a] == if a.auditableId == id && a.auditableType == typ then multiset(t)[a] else 0
    ensures SortedAscending(t) ==> SortedAscending(r)
  {
    Where(t, (a: Audit) => a.auditableId == id && a.auditableType == typ)
  }

  /** True when `a` and `b` audit the same record. */
  predicate SameAuditable(a: Audit, b: Audit) {
    a.auditableId == b.auditableId && a.auditableType == b.auditableType
  }

  /** `a` is a row of the same record as `self` with a version no later
      than `self`'s. */
  predicate IsAncestor(a: Audit, self: Audit) {
    SameAuditable(a, self) && a.version.Some? && self.version.Some? && a.version.value <= self.version.value
  }

  /** `ancestors`: the rows of the same record whose version does not
      exceed `self`'s, lowest version first. */
  function Ancestors(t: seq<Audit>, self: Audit): (r: seq<Audit>)
    ensures SortedAscending(r)
    ensures forall a :: a in r <==> a in t && IsAncestor(a, self)
    ensures forall a :: multiset(r)[a] == if IsAncestor(a, self) then multiset(t)[a] else 0
  {
    var up := Ascending(t);
    PermutationSameRows(up, t);
    ToVersion(AuditableFinder(up, self.auditableId, self.auditableType), self.version)
  }

  /** A stored row with a version is among its own ancestors. */
  lemma AncestorsIncludeSelf(t: seq<Audit>, self: Audit)
    requires self in t && self.version.Some?
    ensures self in Ancestors(t, self)
  {
  }

  /** `maximum(:version)`: the largest non-NULL version, or None when every
      version is NULL (including when there are no rows). */
  function MaximumVersion(t: seq<Audit>): (m: Option<int>)
    ensures m.None? <==> forall a :: a in t ==> a.version.None?
    ensures m.Some? ==> exists a :: a in t && a.version == m
    ensures m.Some? ==> forall a :: a in t && a.version.Some? ==> a.version.value <= m.value
  {
    if t == [] then None
    else
      var rest := MaximumVersion(t[1..]);
      assert forall a :: a in t <==> a == t[0] || a in t[1..];
      match t[0].version
      case None => rest
      case Some(v) =>
        if rest.Some? && rest.value > v then rest else Some(v)
  }

  /** `m` is the largest non-NULL version in `t`, None when there is none. */
  predicate IsMaximumVersion(m: Option<int>, t: seq<Audit>) {
    && (m.None? <==> forall a :: a in t ==> a.version.None?)
    && (m.Some? ==> exists a :: a in t && a.version == m)
    && (m.Some? ==> forall a :: a in t && a.version.Some? ==> a.version.value <= m.value)
  }

  lemma MaximumIsUnique(m: Option<int>, n: Option<int>, s: seq<Audit>, t: seq<Audit>)
    requires IsMaximumVersion(m, s) && IsMaximumVersion(n, t)
    requires forall a :: a in s <==> a in t
    ensures m == n
  {
    if m.Some? && n.Some? {
      var a :| a in s && a.version == m;
      var b :| b in t && b.version == n;
      assert a in t && b in s;
    }
  }

  /** The maximum depends only on which rows are present. */
  lemma MaximumVersionOfSameRows(s: seq<Audit>, t: seq<Audit>)
    requires forall a :: a in s <==> a in t
    ensures MaximumVersion(s) == MaximumVersion(t)
  {
    MaximumIsUnique(MaximumVersion(s), MaximumVersion(t), s, t);
  }

  /** In descending order the first row carries the maximum. */
  lemma DescendingHeadIsMaximum(d: seq<Audit>)
    requires SortedDescending(d) && d != []
    ensures MaximumVersion(d) == d[0].version
  {
    var m := MaximumVersion(d);
    forall a | a in d ensures VersionLe(a.version, d[0].version) {
      var j :| 0 <= j < |d| && d[j] == a;
      assert j == 0 || VersionLe(d[j].version, d[0].version);
    }
    if m.Some? {
      var a :| a in d && a.version == m;
    }
  }

  /** The version the ActiveRecord adapter gives a new audit of the record
      `(id, typ)`: one more than the largest existing version, or 1. */
  function NextVersion(t: seq<Audit>, id: Option<int>, typ: Option<string>): int {
    match MaximumVersion(AuditableFinder(t, id, typ))
    case None => 1
    case Some(m) => m + 1
  }

  /** The version the generic audit module computes: the version of the
      first row in descending order, or 0 when there is none, plus one. */
  function GenericNextVersion(t: seq<Audit>, id: Option<int>, typ: Option<string>): int {
    var d := Descending(AuditableFinder(t, id, typ));
    (if d == [] || d[0].version.None? then 0 else d[0].version.value) + 1
  }

  lemma PermutationSameRows(s: seq<Audit>, t: seq<Audit>)
    requires multiset(s) == multiset(t)
    ensures forall a :: a in s <==> a in t
  {
    forall a ensures a in s <==> a in t {
      assert a in s <==> a in multiset(s);
      assert a in t <==> a in multiset(t);
    }
  }

  /** Both ways of allocating a version agree on every table. */
  lemma AllocatorsAgree(t: seq<Audit>, id: Option<int>, typ: Option<string>)
    ensures GenericNextVersion(t, id, typ) == NextVersion(t, id, typ)
  {
    var f := AuditableFinder(t, id, typ);
    var d := Descending(f);
    PermutationSameRows(d, f);
    MaximumVersionOfSameRows(d, f);
    var base := if d == [] || d[0].version.None? then 0 else d[0].version.value;
    if d != [] {
      DescendingHeadIsMaximum(d);
    }
    assert MaximumVersion(f) == MaximumVersion(d);
    assert GenericNextVersion(t, id, typ) == base + 1;
  }

  /** The versions of the rows of `(id, typ)`, in table order, are exactly
      1, 2, ..., n. */
  predicate GapFree(t: seq<Audit>, id: Option<int>, typ: Option<string>, n: nat) {
    NumberedFromOne(AuditableFinder(t, id, typ), n)
  }

  predicate NumberedFromOne(f: seq<Audit>, n: nat) {
    |f| == n && forall i :: 0 <= i < n ==> f[i].version == Some(i + 1)
  }

  lemma NumberedMaximum(f: seq<Audit>, n: nat)
    requires NumberedFromOne(f, n)
    ensures MaximumVersion(f) == if n == 0 then None else Some(n)
  {
    var m := MaximumVersion(f);
    if n > 0 {
      assert f[n - 1] in f;
      var a :| a in f && a.version == m;
      var i :| 0 <= i < |f| && f[i] == a;
    }
  }

  /** Sequential allocation: a record whose audits are numbered 1..n gets
      n + 1 next, and after that row is stored its audits are numbered
      1..n + 1. Starting from no audits, changes are numbered 1, 2, 3, ... */
  lemma {:induction false} SequentialVersions(t: seq<Audit>, a: Audit, n: nat)
    requires GapFree(t, a.auditableId, a.auditableType, n)
    requires a.version == Some(NextVersion(t, a.auditableId, a.auditableType))
    ensures NextVersion(t, a.auditableId, a.auditableType) == n + 1
    ensures GapFree(t + [a], a.auditableId, a.auditableType, n + 1)
  {
    var id, typ := a.auditableId, a.auditableType;
    NextOfNumbered(t, id, typ, n);
    FinderAppend(t, a);
    NumberedAppend(AuditableFinder(t, id, typ), a, n);
  }

  lemma NextOfNumbered(t: seq<Audit>, id: Option<int>, typ: Option<string>, n: nat)
    requires NumberedFromOne(AuditableFinder(t, id, typ), n)
    ensures NextVersion(t, id, typ) == n + 1
  {
    NumberedMaximum(AuditableFinder(t, id, typ), n);
  }

  /** Storing a row of a record appends it to that record's rows. */
  lemma FinderAppend(t: seq<Audit>, a: Audit)
    ensures AuditableFinder(t + [a], a.auditableId, a.auditableType) == AuditableFinder(t, a.auditableId, a.auditableType) + [a]
  {
    var id, typ := a.auditableId, a.auditableType;
    WhereAppend(t, a, (x: Audit) => x.auditableId == id && x.auditableType == typ);
  }

  lemma NumberedAppend(f: seq<Audit>, a: Audit, n: nat)
    requires NumberedFromOne(f, n) && a.version == Some(n + 1)
    ensures NumberedFromOne(f + [a], n + 1)
  {
    var g := f + [a];
    forall i | 0 <= i < n + 1 ensures g[i].version == Some(i + 1) {
      if i < n {
        assert g[i] == f[i];
      }
    }
  }

  lemma WhereAppend(t: seq<Audit>, a: Audit, p: Audit -> bool)
    requires p(a)
    ensures Where(t + [a], p) == Where(t, p) + [a]
  {
    assert (t + [a])[..|t|] == t;
  }
}
